/**
 * The crop window around a lesion (`get_center_and_margin` and `crop_image`
 * of scripts/image_processing.py; the single-mask variant of
 * image_processing.py is the same computation on a list of one mask).
 *
 * The in-plane window is centred on the truncated mean of the foreground
 * coordinates, pooled over all masks, and clipped to the shape of the first
 * mask; the slice window runs from the lowest to the highest foreground slice,
 * widened by the slice margin and clipped.
 */
module CropGeometry {
  import opened Wrappers
  import opened Volumes

  /** A half-open index range `[lo, hi)`. */
  datatype Span = Span(lo: int, hi: int)

  /** `[[lo0, hi0], [lo1, hi1], [lo2, hi2]]`. */
  datatype Bounds = Bounds(b0: Span, b1: Span, b2: Span)

  /** What `get_center_and_margin` returns: the bounds and the slice range. */
  datatype CropWindow = CropWindow(bounds: Bounds, sliceRange: Span)

  datatype GeometryError =
    | NoMaskData    // the masks dict is empty: "No valid mask data found"
    | NoForeground  // no mask has a non-zero voxel: `min()` of an empty coordinate array

  function Max(a: int, b: int): int { if a >= b then a else b }
  function Min(a: int, b: int): int { if a <= b then a else b }

  /** `np.concatenate` of the `np.nonzero` coordinates of every mask, in dict order. */
  function AllCoords(masks: seq<Vol>): seq<Coord> {
    if masks == [] then [] else AllCoords(masks[..|masks| - 1]) + Nonzero(masks[|masks| - 1])
  }

  /** `[max(0, c - m), min(n, c + m)]` for one in-plane axis. */
  function InPlaneSpan(cs: seq<Coord>, a: nat, n: nat, margin: int): Span
    requires cs != []
  {
    Span(Max(0, Center(cs, a) - margin), Min(n, Center(cs, a) + margin))
  }

  /** `get_center_and_margin(masks, in_plane_margin, slice_margin)`. */
  function CenterAndMargin(masks: seq<Vol>, margin: int, sliceMargin: int): Result<CropWindow, GeometryError> {
    if masks == [] then Err(NoMaskData)
    else
      var cs := AllCoords(masks);
      if cs == [] then Err(NoForeground)
      else
        var shape := masks[0].shape;
        var slices := Span(Max(0, AxisMin(cs, 2) - sliceMargin), Min(shape.n2, AxisMax(cs, 2) + sliceMargin + 1));
        Ok(CropWindow(Bounds(InPlaneSpan(cs, 0, shape.n0, margin), InPlaneSpan(cs, 1, shape.n1, margin), slices), slices))
  }

  /** `plane[lo1:hi1, lo2:hi2]`. */
  function CropPlane(plane: seq<seq<int>>, s1: Span, s2: Span): (r: seq<seq<int>>)
    ensures |r| == SliceLength(|plane|, s1.lo, s1.hi)
    ensures forall j :: 0 <= j < |r| ==> r[j] == PySlice(plane[SliceIndex(|plane|, s1.lo) + j], s2.lo, s2.hi)
  {
    var s := PySlice(plane, s1.lo, s1.hi);
    seq(|s|, j requires 0 <= j < |s| => PySlice(s[j], s2.lo, s2.hi))
  }

  /** `crop_image(image, bounds)`: `image[lo0:hi0, lo1:hi1, lo2:hi2]` with Python's slicing. */
  function CropImage(x: Vol, b: Bounds): (r: Vol)
    ensures r.shape == Shape(SliceLength(x.shape.n0, b.b0.lo, b.b0.hi),
                             SliceLength(x.shape.n1, b.b1.lo, b.b1.hi),
                             SliceLength(x.shape.n2, b.b2.lo, b.b2.hi))
  {
    Volume(Shape(SliceLength(x.shape.n0, b.b0.lo, b.b0.hi),
                 SliceLength(x.shape.n1, b.b1.lo, b.b1.hi),
                 SliceLength(x.shape.n2, b.b2.lo, b.b2.hi)), CropCube(x.v, b))
  }

  /** The voxels of `crop_image`: each selected plane cropped in turn. */
  function CropCube(v: seq<seq<seq<int>>>, b: Bounds): (r: seq<seq<seq<int>>>)
    ensures |r| == SliceLength(|v|, b.b0.lo, b.b0.hi)
    ensures forall i :: 0 <= i < |r| ==> r[i] == CropPlane(v[SliceIndex(|v|, b.b0.lo) + i], b.b1, b.b2)
  {
    var s0 := PySlice(v, b.b0.lo, b.b0.hi);
    seq(|s0|, i requires 0 <= i < |s0| => CropPlane(s0[i], b.b1, b.b2))
  }
}
