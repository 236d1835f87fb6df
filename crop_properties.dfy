/**
 * What the crop window of scripts/image_processing.py guarantees: when it
 * fails, that it stays inside the volume, that its in-plane part is centred on
 * the foreground, that its slice range holds every foreground slice of every
 * mask, and that cropping keeps the selected voxels in place.
 */
module CropProperties {
  import opened Wrappers
  import opened Volumes
  import opened CropGeometry

  /** All masks have the shape of the first (the shape the window is clipped to). */
  predicate SameShape(masks: seq<Vol>) {
    forall t :: 0 <= t < |masks| ==> masks[t].shape == masks[0].shape
  }

  lemma {:induction false} AllCoordsMembers(masks: seq<Vol>)
    ensures forall c :: c in AllCoords(masks) <==> exists t :: 0 <= t < |masks| && c in Nonzero(masks[t])
  {
    if masks != [] {
      var init := masks[..|masks| - 1];
      AllCoordsMembers(init);
      assert forall t :: 0 <= t < |init| ==> init[t] == masks[t];
    }
  }

  /** A pooled coordinate is a foreground voxel of one of the masks. */
  lemma PooledCoordIsForeground(masks: seq<Vol>, c: Coord) returns (t: nat)
    requires c in AllCoords(masks)
    ensures t < |masks| && InVolume(masks[t], c) && At(masks[t], c) != 0
  {
    AllCoordsMembers(masks);
    t :| 0 <= t < |masks| && c in Nonzero(masks[t]);
    NonzeroMembers(masks[t]);
  }

  lemma ForegroundIsPooled(masks: seq<Vol>, t: nat, c: Coord)
    requires t < |masks| && InVolume(masks[t], c)
    ensures At(masks[t], c) != 0 ==> c in AllCoords(masks)
  {
    NonzeroMembers(masks[t]);
    AllCoordsMembers(masks);
  }

  /**
   * `get_center_and_margin` fails with "No valid mask data found" exactly when
   * it gets no mask, and otherwise exactly when no mask has a non-zero voxel.
   */
  lemma CenterAndMarginErrors(masks: seq<Vol>, margin: int, sliceMargin: int)
    ensures CenterAndMargin(masks, margin, sliceMargin) == Err(NoMaskData) <==> masks == []
    ensures CenterAndMargin(masks, margin, sliceMargin) == Err(NoForeground) <==>
      masks != [] && forall t, c :: 0 <= t < |masks| && InVolume(masks[t], c) ==> At(masks[t], c) == 0
  {
    AllCoordsMembers(masks);
    if masks != [] && AllCoords(masks) != [] {
      var c := AllCoords(masks)[0];
      var t := PooledCoordIsForeground(masks, c);
    }
    if masks != [] && AllCoords(masks) == [] {
      forall t, c | 0 <= t < |masks| && InVolume(masks[t], c) ensures At(masks[t], c) == 0 {
        ForegroundIsPooled(masks, t, c);
      }
    }
  }

  /** Every pooled coordinate of axis `a` lies below that axis's extent. */
  lemma PooledWithinShape(masks: seq<Vol>, a: nat)
    requires SameShape(masks) && AllCoords(masks) != [] && a <= 2
    ensures AxisMax(AllCoords(masks), a) < if a == 0 then masks[0].shape.n0 else if a == 1 then masks[0].shape.n1 else masks[0].shape.n2
  {
    var cs := AllCoords(masks);
    var m := AxisMax(cs, a);
    var c :| c in cs && Axis(c, a) == m;
    var t := PooledCoordIsForeground(masks, c);
  }

  /**
   * For masks of one shape and non-negative margins the window lies inside
   * the volume on every axis, the in-plane spans contain the centre when the
   * margin is positive, and the slice range is the third span.
   */
  lemma CropWindowWithinShape(masks: seq<Vol>, margin: int, sliceMargin: int)
    requires SameShape(masks) && margin >= 0 && sliceMargin >= 0
    requires CenterAndMargin(masks, margin, sliceMargin).Ok?
    ensures var w := CenterAndMargin(masks, margin, sliceMargin).value;
      && 0 <= w.bounds.b0.lo <= w.bounds.b0.hi <= masks[0].shape.n0
      && 0 <= w.bounds.b1.lo <= w.bounds.b1.hi <= masks[0].shape.n1
      && 0 <= w.bounds.b2.lo <= w.bounds.b2.hi <= masks[0].shape.n2
      && w.sliceRange == w.bounds.b2
      && (margin > 0 ==> w.bounds.b0.lo <= Center(AllCoords(masks), 0) < w.bounds.b0.hi)
      && (margin > 0 ==> w.bounds.b1.lo <= Center(AllCoords(masks), 1) < w.bounds.b1.hi)
  {
    var cs := AllCoords(masks);
    PooledWithinShape(masks, 0);
    PooledWithinShape(masks, 1);
    PooledWithinShape(masks, 2);
    CenterWithinForeground(cs, 0);
    CenterWithinForeground(cs, 1);
    assert AxisMin(cs, 2) <= AxisMax(cs, 2) by {
      assert cs[0] in cs;
    }
  }

  /** Every foreground voxel of every mask lies in the slice range (the in-plane window need not hold it). */
  lemma SliceRangeCoversForeground(masks: seq<Vol>, margin: int, sliceMargin: int, t: nat, c: Coord)
    requires SameShape(masks) && sliceMargin >= 0 && t < |masks|
    requires InVolume(masks[t], c) && At(masks[t], c) != 0
    ensures CenterAndMargin(masks, margin, sliceMargin).Ok?
    ensures var w := CenterAndMargin(masks, margin, sliceMargin).value;
      w.sliceRange.lo <= c.k < w.sliceRange.hi
  {
    var cs := AllCoords(masks);
    ForegroundIsPooled(masks, t, c);
    var lo, hi := AxisMin(cs, 2), AxisMax(cs, 2);
    assert lo <= c.k <= hi;
    assert c.k < masks[0].shape.n2;
  }

  /**
   * `crop_image` with bounds inside the volume: the result has extent
   * `hi - lo` on each axis, and its voxel `(i, j, k)` is the source voxel
   * `(i + lo0, j + lo1, k + lo2)`.
   */
  lemma CropElements(x: Vol, b: Bounds)
    requires 0 <= b.b0.lo <= b.b0.hi <= x.shape.n0
    requires 0 <= b.b1.lo <= b.b1.hi <= x.shape.n1
    requires 0 <= b.b2.lo <= b.b2.hi <= x.shape.n2
    ensures CropImage(x, b).shape == Shape(b.b0.hi - b.b0.lo, b.b1.hi - b.b1.lo, b.b2.hi - b.b2.lo)
    ensures forall c :: InVolume(CropImage(x, b), c) ==>
      InVolume(x, Coord(c.i + b.b0.lo, c.j + b.b1.lo, c.k + b.b2.lo))
      && At(CropImage(x, b), c) == At(x, Coord(c.i + b.b0.lo, c.j + b.b1.lo, c.k + b.b2.lo))
  {
    InRangeSlice(x.shape.n0, b.b0.lo, b.b0.hi);
    InRangeSlice(x.shape.n1, b.b1.lo, b.b1.hi);
    InRangeSlice(x.shape.n2, b.b2.lo, b.b2.hi);
    forall c | InVolume(CropImage(x, b), c)
      ensures InVolume(x, Coord(c.i + b.b0.lo, c.j + b.b1.lo, c.k + b.b2.lo))
      ensures At(CropImage(x, b), c) == At(x, Coord(c.i + b.b0.lo, c.j + b.b1.lo, c.k + b.b2.lo))
    {
      CropVoxel(x, b, c);
    }
  }

  /** One voxel of the crop is the source voxel shifted by the lower bounds. */
  lemma CropVoxel(x: Vol, b: Bounds, c: Coord)
    requires 0 <= b.b0.lo <= b.b0.hi <= x.shape.n0
    requires 0 <= b.b1.lo <= b.b1.hi <= x.shape.n1
    requires 0 <= b.b2.lo <= b.b2.hi <= x.shape.n2
    requires c.i < b.b0.hi - b.b0.lo && c.j < b.b1.hi - b.b1.lo && c.k < b.b2.hi - b.b2.lo
    ensures InVolume(x, Coord(c.i + b.b0.lo, c.j + b.b1.lo, c.k + b.b2.lo))
    ensures InVolume(CropImage(x, b), c)
    ensures At(CropImage(x, b), c) == At(x, Coord(c.i + b.b0.lo, c.j + b.b1.lo, c.k + b.b2.lo))
  {
    InRangeSlice(x.shape.n0, b.b0.lo, b.b0.hi);
    InRangeSlice(x.shape.n1, b.b1.lo, b.b1.hi);
    InRangeSlice(x.shape.n2, b.b2.lo, b.b2.hi);
    CropCubeAt(x.v, b, c.i, c.j, c.k);
  }

  /** Element `[i][j][k]` of the cropped voxels is element `[i + lo0][j + lo1][k + lo2]` of the source. */
  lemma CropCubeAt(v: seq<seq<seq<int>>>, b: Bounds, i: nat, j: nat, k: nat)
    requires 0 <= b.b0.lo <= b.b0.hi <= |v| && i < b.b0.hi - b.b0.lo
    requires 0 <= b.b1.lo <= b.b1.hi <= |v[i + b.b0.lo]| && j < b.b1.hi - b.b1.lo
    requires 0 <= b.b2.lo <= b.b2.hi <= |v[i + b.b0.lo][j + b.b1.lo]| && k < b.b2.hi - b.b2.lo
    ensures i < |CropCube(v, b)| && j < |CropCube(v, b)[i]| && k < |CropCube(v, b)[i][j]|
    ensures CropCube(v, b)[i][j][k] == v[i + b.b0.lo][j + b.b1.lo][k + b.b2.lo]
  {
    CropCubePlane(v, b, i);
    CropPlaneAt(v[i + b.b0.lo], b.b1, b.b2, j, k);
  }

  /** Plane `i` of the cropped voxels is the crop of source plane `i + lo0`. */
  lemma CropCubePlane(v: seq<seq<seq<int>>>, b: Bounds, i: nat)
    requires 0 <= b.b0.lo <= b.b0.hi <= |v| && i < b.b0.hi - b.b0.lo
    ensures i < |CropCube(v, b)| && CropCube(v, b)[i] == CropPlane(v[i + b.b0.lo], b.b1, b.b2)
  {
    InRangeSlice(|v|, b.b0.lo, b.b0.hi);
  }

  /** Element `[j][k]` of a cropped plane is element `[j + lo1][k + lo2]` of the source plane. */
  lemma CropPlaneAt(plane: seq<seq<int>>, s1: Span, s2: Span, j: nat, k: nat)
    requires 0 <= s1.lo <= s1.hi <= |plane| && j < s1.hi - s1.lo
    requires 0 <= s2.lo <= s2.hi <= |plane[j + s1.lo]| && k < s2.hi - s2.lo
    ensures j < |CropPlane(plane, s1, s2)| && k < |CropPlane(plane, s1, s2)[j]|
    ensures CropPlane(plane, s1, s2)[j][k] == plane[j + s1.lo][k + s2.lo]
  {
    CropPlaneLine(plane, s1, s2, j);
    PySliceAt(plane[j + s1.lo], s2.lo, s2.hi, k);
  }

  /** Element `k` of an in-range slice is element `k + lo` of the sequence. */
  lemma PySliceAt(line: seq<int>, lo: int, hi: int, k: nat)
    requires 0 <= lo <= hi <= |line| && k < hi - lo
    ensures k < |PySlice(line, lo, hi)| && PySlice(line, lo, hi)[k] == line[k + lo]
  {
    InRangeSlice(|line|, lo, hi);
  }

  /** Line `j` of a cropped plane is the cut of source line `j + lo1`. */
  lemma CropPlaneLine(plane: seq<seq<int>>, s1: Span, s2: Span, j: nat)
    requires 0 <= s1.lo <= s1.hi <= |plane| && j < s1.hi - s1.lo
    ensures j < |CropPlane(plane, s1, s2)|
    ensures CropPlane(plane, s1, s2)[j] == PySlice(plane[j + s1.lo], s2.lo, s2.hi)
  {
    InRangeSlice(|plane|, s1.lo, s1.hi);
  }

  /** A slice whose ends lie inside the sequence starts at its first index and is `hi - lo` long. */
  lemma InRangeSlice(len: nat, lo: int, hi: int)
    requires 0 <= lo <= hi <= len
    ensures SliceIndex(len, lo) == lo && SliceIndex(len, hi) == hi
    ensures SliceLength(len, lo, hi) == hi - lo
  {
  }
}
