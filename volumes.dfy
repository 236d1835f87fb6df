/**
 * Three-dimensional image volumes as the viewer scripts use them
 * (scripts/image_processing.py, image_processing.py): a shape and the voxel
 * values indexed `[i][j][k]`, `k` being the slice axis; `np.nonzero` as the
 * foreground coordinates in C order; and Python's basic slicing.
 */
module Volumes {

  datatype Shape = Shape(n0: nat, n1: nat, n2: nat)

  datatype Volume = Volume(shape: Shape, v: seq<seq<seq<int>>>) {
    /** Every plane has `n1` lines and every line `n2` voxels, as a numpy array does. */
    predicate Valid() {
      && |v| == shape.n0
      && (forall i :: 0 <= i < |v| ==> |v[i]| == shape.n1)
      && (forall i, j :: 0 <= i < |v| && 0 <= j < |v[i]| ==> |v[i][j]| == shape.n2)
    }
  }

  /** A numpy array of three dimensions. */
  type Vol = x: Volume | x.Valid() witness Volume(Shape(0, 0, 0), [])

  datatype Coord = Coord(i: nat, j: nat, k: nat)

  /** Coordinate `a` (0, 1 or 2) of `c`. */
  function Axis(c: Coord, a: nat): nat {
    if a == 0 then c.i else if a == 1 then c.j else c.k
  }

  predicate InVolume(x: Vol, c: Coord) {
    c.i < x.shape.n0 && c.j < x.shape.n1 && c.k < x.shape.n2
  }

  /** The voxel at `c`. */
  function At(x: Vol, c: Coord): int
    requires InVolume(x, c)
  {
    x.v[c.i][c.j][c.k]
  }

  // ---------------------------------------------------------------------------
  // np.nonzero
  // ---------------------------------------------------------------------------

  function LineCoords(line: seq<int>, i: nat, j: nat, n: nat): seq<Coord>
    requires n <= |line|
  {
    if n == 0 then []
    else LineCoords(line, i, j, n - 1) + if line[n - 1] != 0 then [Coord(i, j, n - 1)] else []
  }

  function PlaneCoords(plane: seq<seq<int>>, i: nat, n: nat): seq<Coord>
    requires n <= |plane|
  {
    if n == 0 then [] else PlaneCoords(plane, i, n - 1) + LineCoords(plane[n - 1], i, n - 1, |plane[n - 1]|)
  }

  function GridCoords(g: seq<seq<seq<int>>>, n: nat): seq<Coord>
    requires n <= |g|
  {
    if n == 0 then [] else GridCoords(g, n - 1) + PlaneCoords(g[n - 1], n - 1, |g[n - 1]|)
  }

  /** `np.nonzero(x)`, read column by column: the coordinates of the non-zero voxels in C order. */
  function Nonzero(x: Vol): seq<Coord> {
    GridCoords(x.v, |x.v|)
  }

  lemma {:induction false} LineCoordsMembers(line: seq<int>, i: nat, j: nat, n: nat)
    requires n <= |line|
    ensures forall c :: c in LineCoords(line, i, j, n) <==> c.i == i && c.j == j && c.k < n && line[c.k] != 0
  {
    if n > 0 {
      LineCoordsMembers(line, i, j, n - 1);
    }
  }

  lemma {:induction false} PlaneCoordsMembers(plane: seq<seq<int>>, i: nat, n: nat)
    requires n <= |plane|
    ensures forall c :: c in PlaneCoords(plane, i, n) <==> c.i == i && c.j < n && c.k < |plane[c.j]| && plane[c.j][c.k] != 0
  {
    if n > 0 {
      PlaneCoordsMembers(plane, i, n - 1);
      LineCoordsMembers(plane[n - 1], i, n - 1, |plane[n - 1]|);
    }
  }

  lemma {:induction false} GridCoordsMembers(g: seq<seq<seq<int>>>, n: nat)
    requires n <= |g|
    ensures forall c :: c in GridCoords(g, n) <==>
      c.i < n && c.j < |g[c.i]| && c.k < |g[c.i][c.j]| && g[c.i][c.j][c.k] != 0
  {
    if n > 0 {
      GridCoordsMembers(g, n - 1);
      PlaneCoordsMembers(g[n - 1], n - 1, |g[n - 1]|);
    }
  }

  /** `np.nonzero` lists exactly the coordinates of the non-zero voxels. */
  lemma NonzeroMembers(x: Vol)
    ensures forall c :: c in Nonzero(x) <==> InVolume(x, c) && At(x, c) != 0
  {
    GridCoordsMembers(x.v, |x.v|);
  }

  // ---------------------------------------------------------------------------
  // Sums, minima and maxima of one axis over a list of coordinates
  // ---------------------------------------------------------------------------

  function AxisSum(cs: seq<Coord>, a: nat): nat {
    if cs == [] then 0 else AxisSum(cs[..|cs| - 1], a) + Axis(cs[|cs| - 1], a)
  }

  function AxisMin(cs: seq<Coord>, a: nat): (m: nat)
    requires cs != []
    ensures forall c :: c in cs ==> m <= Axis(c, a)
    ensures exists c :: c in cs && Axis(c, a) == m
  {
    var last := Axis(cs[|cs| - 1], a);
    if |cs| == 1 then last
    else
      var rest := AxisMin(cs[..|cs| - 1], a);
      assert cs == cs[..|cs| - 1] + [cs[|cs| - 1]];
      if rest <= last then rest else last
  }

  function AxisMax(cs: seq<Coord>, a: nat): (m: nat)
    requires cs != []
    ensures forall c :: c in cs ==> Axis(c, a) <= m
    ensures exists c :: c in cs && Axis(c, a) == m
  {
    var last := Axis(cs[|cs| - 1], a);
    if |cs| == 1 then last
    else
      var rest := AxisMax(cs[..|cs| - 1], a);
      assert cs == cs[..|cs| - 1] + [cs[|cs| - 1]];
      if rest >= last then rest else last
  }

  /** `np.mean(coords, axis=1).astype(int)` for one axis: the mean, truncated (coordinates are never negative). */
  function Center(cs: seq<Coord>, a: nat): nat
    requires cs != []
  {
    AxisSum(cs, a) / |cs|
  }

  /** The sum lies between `|cs|` times the smallest and `|cs|` times the largest coordinate. */
  lemma {:induction false} AxisSumBounds(cs: seq<Coord>, a: nat, lo: int, hi: int)
    requires forall t :: 0 <= t < |cs| ==> lo <= Axis(cs[t], a) <= hi
    ensures |cs| * lo <= AxisSum(cs, a) <= |cs| * hi
  {
    if cs != [] {
      var init := cs[..|cs| - 1];
      assert forall t :: 0 <= t < |init| ==> init[t] == cs[t];
      AxisSumBounds(init, a, lo, hi);
      MulSucc(|init|, lo);
      MulSucc(|init|, hi);
    }
  }

  lemma MulSucc(n: nat, x: int)
    ensures (n + 1) * x == n * x + x
  {
  }

  lemma DivBetween(s: nat, n: nat, lo: int, hi: int)
    requires n > 0 && n * lo <= s <= n * hi
    ensures lo <= s / n <= hi
  {
    var q := s / n;
    assert s == n * q + s % n;
    if q < lo {
      MulMonotone(n, q, lo - 1);
      assert false;
    }
    if q > hi {
      MulMonotone(n, hi + 1, q);
      assert false;
    }
  }

  lemma MulMonotone(n: nat, x: int, y: int)
    requires x <= y
    ensures n * x <= n * y
  {
  }

  /** The truncated mean lies between the smallest and the largest coordinate. */
  lemma CenterWithinForeground(cs: seq<Coord>, a: nat)
    requires cs != []
    ensures AxisMin(cs, a) <= Center(cs, a) <= AxisMax(cs, a)
  {
    assert forall t :: 0 <= t < |cs| ==> cs[t] in cs;
    AxisSumBounds(cs, a, AxisMin(cs, a), AxisMax(cs, a));
    DivBetween(AxisSum(cs, a), |cs|, AxisMin(cs, a), AxisMax(cs, a));
  }

  // ---------------------------------------------------------------------------
  // Python slicing with step 1
  // ---------------------------------------------------------------------------

  /** Where a slice index lands in a sequence of length `len`: negatives count from the end, both ends clamp. */
  function SliceIndex(len: nat, x: int): (r: nat)
    ensures r <= len
  {
    if x < 0 then (if len + x < 0 then 0 else len + x) else if x > len then len else x
  }

  /** The length `s[a:b]` has for a sequence of length `len`. */
  function SliceLength(len: nat, a: int, b: int): nat {
    if SliceIndex(len, b) <= SliceIndex(len, a) then 0 else SliceIndex(len, b) - SliceIndex(len, a)
  }

  /** `s[a:b]`: the elements from the first index up to, not including, the second. */
  function PySlice<T>(s: seq<T>, a: int, b: int): (r: seq<T>)
    ensures |r| == SliceLength(|s|, a, b)
    ensures forall t :: 0 <= t < |r| ==> r[t] == s[SliceIndex(|s|, a) + t]
  {
    var lo := SliceIndex(|s|, a);
    var hi := SliceIndex(|s|, b);
    if hi <= lo then [] else s[lo..hi]
  }
}
