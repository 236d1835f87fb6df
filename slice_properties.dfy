/**
 * What the slice renderers guarantee: the optimal window is absent exactly
 * when no mask has a positive voxel, each reader column shows that reader's
 * mask or "No Data", every page has its own file name, the error paths of
 * `process_single_lesion`, and that the current renderer draws every slice
 * holding foreground of any reader, which the legacy one does not.
 */
module SliceProperties {
  import opened Wrappers
  import opened Strings
  import opened Readers
  import opened Volumes
  import opened CropGeometry
  import opened CropProperties
  import opened LesionTable
  import opened SliceRendering

  // ---------------------------------------------------------------------------
  // The combined mask and the optimal window
  // ---------------------------------------------------------------------------

  lemma OrMaskAt(a: Vol, m: Vol, c: Coord)
    requires a.shape == m.shape && InVolume(a, c)
    ensures At(OrMask(a, m), c) == if At(a, c) != 0 || At(m, c) > 0 then 1 else 0
  {
  }

  /** A voxel of the combined mask is 1 where some mask is positive and 0 elsewhere. */
  lemma {:induction false} CombinedAt(t1: Vol, masks: seq<ReaderMask>, n: nat, c: Coord)
    requires ShapesAgree(t1, masks) && n <= |masks| && InVolume(t1, c)
    ensures At(Combined(t1, masks, n), c) == if exists t :: 0 <= t < n && At(masks[t].mask, c) > 0 then 1 else 0
  {
    if n > 0 {
      CombinedAt(t1, masks, n - 1, c);
      OrMaskAt(Combined(t1, masks, n - 1), masks[n - 1].mask, c);
    }
  }

  /** `calculate_optimal_window` gives `(None, None)` exactly when no mask has a positive voxel. */
  lemma OptimalWindowAbsent(t1: Vol, masks: seq<ReaderMask>)
    requires ShapesAgree(t1, masks)
    ensures OptimalWindow(t1, Combined(t1, masks, |masks|)).None? <==>
      forall t, c :: 0 <= t < |masks| && InVolume(masks[t].mask, c) ==> At(masks[t].mask, c) <= 0
  {
    var combined := Combined(t1, masks, |masks|);
    NonzeroMembers(combined);
    if OptimalWindow(t1, combined).Some? {
      var c := Nonzero(combined)[0];
      assert c in Nonzero(combined);
      CombinedAt(t1, masks, |masks|, c);
    } else {
      forall t, c | 0 <= t < |masks| && InVolume(masks[t].mask, c)
        ensures At(masks[t].mask, c) <= 0
      {
        CombinedAt(t1, masks, |masks|, c);
      }
    }
  }

  // ---------------------------------------------------------------------------
  // Reader masks and panels
  // ---------------------------------------------------------------------------

  /**
   * `mask_images` holds a reader exactly when its path is given, exists and
   * loads, with the loaded volume; the readers come in the order Reader_1,
   * Reader_2, each at most once.
   */
  lemma LoadedMasksReaders(m: LesionMatch, fs: Files, k: nat)
    requires k < |READERS|
    ensures MaskIndex(LoadedMasks(m, fs, READERS), READERS[k]) < |LoadedMasks(m, fs, READERS)|
      <==> LoadedMask(m, fs, READERS[k]).Some?
    ensures MaskIndex(LoadedMasks(m, fs, READERS), READERS[k]) < |LoadedMasks(m, fs, READERS)| ==>
      LoadedMasks(m, fs, READERS)[MaskIndex(LoadedMasks(m, fs, READERS), READERS[k])].mask
        == LoadedMask(m, fs, READERS[k]).value
    ensures LoadedMasks(m, fs, READERS) != [] ==>
      LoadedMasks(m, fs, READERS)[0].reader == if LoadedMask(m, fs, READER_1).Some? then READER_1 else READER_2
    ensures |LoadedMasks(m, fs, READERS)| == 2 ==> LoadedMasks(m, fs, READERS)[1].reader == READER_2
  {
    assert READERS[..1] == [READER_1];
    assert READERS[..1][..0] == [];
  }

  /**
   * The column of reader `r`: "No Data" exactly when the reader has no mask,
   * otherwise the overlay that is on exactly where that mask is positive on
   * the slice.
   */
  lemma PanelShowsMask(masks: seq<ReaderMask>, r: string, s: nat)
    requires MasksDeep(masks, s + 1)
    ensures PanelOf(masks, r, s).reader == r
    ensures PanelOf(masks, r, s).NoData? <==> forall t :: 0 <= t < |masks| ==> masks[t].reader != r
    ensures PanelOf(masks, r, s).Overlay? ==>
      && MaskIndex(masks, r) < |masks|
      && |PanelOf(masks, r, s).alpha| == masks[MaskIndex(masks, r)].mask.shape.n0
      && forall i, j :: 0 <= i < masks[MaskIndex(masks, r)].mask.shape.n0 &&
                        0 <= j < masks[MaskIndex(masks, r)].mask.shape.n1 ==>
           |PanelOf(masks, r, s).alpha[i]| == masks[MaskIndex(masks, r)].mask.shape.n1
           && (PanelOf(masks, r, s).alpha[i][j] <==> At(masks[MaskIndex(masks, r)].mask, Coord(i, j, s)) > 0)
  {
  }

  // ---------------------------------------------------------------------------
  // File names
  // ---------------------------------------------------------------------------

  /** Different slice numbers give different file names. */
  lemma SliceFileNameInjective(lesionId: string, a: int, b: int)
    requires SliceFileName(lesionId, a) == SliceFileName(lesionId, b)
    ensures a == b
  {
    var x, y := FormatInt(a, 3), FormatInt(b, 3);
    var p := lesionId + "_";
    assert SliceFileName(lesionId, a) == p + x + ".jpg";
    assert SliceFileName(lesionId, b) == p + y + ".jpg";
    assert |x| == |y|;
    assert x == SliceFileName(lesionId, a)[|p|..|p| + |x|];
    assert y == SliceFileName(lesionId, b)[|p|..|p| + |y|];
    FormatIntInjective(a, b, 3);
  }

  /** Joining one directory with two names that agree on a leading '/' is injective. */
  lemma PathJoinInjective(dir: string, x: string, y: string)
    requires PathJoin(dir, x) == PathJoin(dir, y)
    requires StartsWith(x, "/") <==> StartsWith(y, "/")
    ensures x == y
  {
    if !StartsWith(x, "/") {
      if dir == [] || EndsWith(dir, "/") {
        assert x == PathJoin(dir, x)[|dir|..];
        assert y == PathJoin(dir, y)[|dir|..];
      } else {
        assert x == PathJoin(dir, x)[|dir| + 1..];
        assert y == PathJoin(dir, y)[|dir| + 1..];
      }
    }
  }

  /** Slice file names of one lesion agree on their first character. */
  lemma SliceFileNamesStartAlike(lesionId: string, a: int, b: int)
    ensures StartsWith(SliceFileName(lesionId, a), "/") <==> StartsWith(SliceFileName(lesionId, b), "/")
  {
    assert SliceFileName(lesionId, a)[0] == (lesionId + "_")[0];
    assert SliceFileName(lesionId, b)[0] == (lesionId + "_")[0];
  }

  /** Page `t` of `range(lo, hi)` is saved under the name of slice `lo + t` and drawn from cropped slice `t`. */
  lemma PageAt(version: Version, window: Option<seq<int>>, outDir: string, lesionId: string,
               t1: Vol, masks: seq<ReaderMask>, range: Span, t: nat)
    requires Fits(t1, masks, range) && t < SliceCount(range)
    ensures Pages(version, window, outDir, lesionId, t1, masks, range)[t].path == SlicePath(outDir, lesionId, range.lo + t)
    ensures Pages(version, window, outDir, lesionId, t1, masks, range)[t].underlay == PlaneAt(t1, t)
    ensures Pages(version, window, outDir, lesionId, t1, masks, range)[t].panels
      == [PanelOf(masks, READER_1, t), PanelOf(masks, READER_2, t)]
  {
  }

  /** `save_slices_as_jpeg` never saves two pages of one lesion to the same file. */
  lemma PagePathsDistinct(version: Version, window: Option<seq<int>>, outDir: string, lesionId: string,
                          t1: Vol, masks: seq<ReaderMask>, range: Span, t: nat, u: nat)
    requires Fits(t1, masks, range) && t < u < SliceCount(range)
    ensures Pages(version, window, outDir, lesionId, t1, masks, range)[t].path
      != Pages(version, window, outDir, lesionId, t1, masks, range)[u].path
  {
    PageAt(version, window, outDir, lesionId, t1, masks, range, t);
    PageAt(version, window, outDir, lesionId, t1, masks, range, u);
    var x, y := SliceFileName(lesionId, range.lo + t), SliceFileName(lesionId, range.lo + u);
    if PathJoin(PathJoin(outDir, "slices"), x) == PathJoin(PathJoin(outDir, "slices"), y) {
      SliceFileNamesStartAlike(lesionId, range.lo + t, range.lo + u);
      PathJoinInjective(PathJoin(outDir, "slices"), x, y);
      SliceFileNameInjective(lesionId, range.lo + t, range.lo + u);
    }
  }

  /**
   * Drawing succeeds exactly when the cropped volumes can be drawn; it then
   * reports `hi - lo` and saves one page per slice of `range(lo, hi)`, page
   * `t` under the name of slice `lo + t`.
   */
  lemma DrawnPages(version: Version, lesionId: string, outDir: string, t1: Vol, masks: seq<ReaderMask>, range: Span)
    ensures Drawn(version, lesionId, outDir, t1, masks, range).Some? <==> Renderable(version, t1, masks, range)
    ensures Drawn(version, lesionId, outDir, t1, masks, range).Some? ==>
      && Drawn(version, lesionId, outDir, t1, masks, range).value.lesionId == lesionId
      && Drawn(version, lesionId, outDir, t1, masks, range).value.numSlices == range.hi - range.lo
      && |Drawn(version, lesionId, outDir, t1, masks, range).value.pages| == SliceCount(range)
    ensures Drawn(version, lesionId, outDir, t1, masks, range).Some? ==>
      forall t :: 0 <= t < SliceCount(range) ==>
        Drawn(version, lesionId, outDir, t1, masks, range).value.pages[t].path == SlicePath(outDir, lesionId, range.lo + t)
  {
    if Renderable(version, t1, masks, range) {
      var window := WindowFor(version, t1, masks);
      forall t | 0 <= t < SliceCount(range)
        ensures Drawn(version, lesionId, outDir, t1, masks, range).value.pages[t].path == SlicePath(outDir, lesionId, range.lo + t)
      {
        PageAt(version, window, outDir, lesionId, t1, masks, range, t);
      }
    }
  }

  /** Page `t` of a rendered range, for one given `t`. */
  lemma DrawnPageAt(version: Version, lesionId: string, outDir: string, t1: Vol, masks: seq<ReaderMask>, range: Span, t: nat)
    requires Renderable(version, t1, masks, range) && t < SliceCount(range)
    ensures Drawn(version, lesionId, outDir, t1, masks, range).Some?
    ensures |Drawn(version, lesionId, outDir, t1, masks, range).value.pages| == SliceCount(range)
    ensures Drawn(version, lesionId, outDir, t1, masks, range).value.pages[t].path == SlicePath(outDir, lesionId, range.lo + t)
  {
    DrawnPages(version, lesionId, outDir, t1, masks, range);
  }

  // ---------------------------------------------------------------------------
  // One lesion
  // ---------------------------------------------------------------------------

  /** The reader loop adds a mask for no reader exactly when it adds none for either. */
  lemma NoMasksLoaded(m: LesionMatch, fs: Files)
    ensures LoadedMasks(m, fs, READERS) == [] <==> LoadedMask(m, fs, READER_1).None? && LoadedMask(m, fs, READER_2).None?
  {
    assert READERS[..1] == [READER_1];
    assert READERS[..1][..0] == [];
  }

  /**
   * `process_single_lesion` gives `None` for a NaN, missing or unloadable
   * underlay and when no reader mask loads.
   */
  lemma LesionOutcomeNone(version: Version, lesionId: string, m: LesionMatch, outDir: string,
                          margin: int, sliceMargin: int, fs: Files)
    ensures m.underlay.None? ==> LesionOutcome(version, lesionId, m, outDir, margin, sliceMargin, fs).None?
    ensures m.underlay.Some? && !fs.present(m.underlay.value) ==>
      LesionOutcome(version, lesionId, m, outDir, margin, sliceMargin, fs).None?
    ensures m.underlay.Some? && fs.load(m.underlay.value).None? ==>
      LesionOutcome(version, lesionId, m, outDir, margin, sliceMargin, fs).None?
    ensures LoadedMask(m, fs, READER_1).None? && LoadedMask(m, fs, READER_2).None? ==>
      LesionOutcome(version, lesionId, m, outDir, margin, sliceMargin, fs).None?
  {
    NoMasksLoaded(m, fs);
  }

  /** A crop that succeeds reports the lesion, `hi - lo`, and one page per slice of the range. */
  lemma CroppedCount(version: Version, lesionId: string, outDir: string, t1: Vol, masks: seq<ReaderMask>,
                     margin: int, sliceMargin: int)
    requires masks != []
    ensures Cropped(version, lesionId, outDir, t1, masks, margin, sliceMargin).Some? ==>
      && Cropped(version, lesionId, outDir, t1, masks, margin, sliceMargin).value.lesionId == lesionId
      && |Cropped(version, lesionId, outDir, t1, masks, margin, sliceMargin).value.pages|
         == if Cropped(version, lesionId, outDir, t1, masks, margin, sliceMargin).value.numSlices < 0 then 0
            else Cropped(version, lesionId, outDir, t1, masks, margin, sliceMargin).value.numSlices
  {
    var w := CenterAndMargin(BoundsMasks(version, masks), margin, sliceMargin);
    if w.Ok? {
      DrawnPages(version, lesionId, outDir, CropImage(t1, w.value.bounds), CropAll(masks, w.value.bounds), w.value.sliceRange);
    }
  }

  /**
   * A rendered lesion names itself and holds one page per slice of its
   * range; the count it reports is `hi - lo`, which the page count equals
   * unless the range is empty.
   */
  lemma LesionOutcomeSome(version: Version, lesionId: string, m: LesionMatch, outDir: string,
                          margin: int, sliceMargin: int, fs: Files)
    requires LesionOutcome(version, lesionId, m, outDir, margin, sliceMargin, fs).Some?
    ensures LesionOutcome(version, lesionId, m, outDir, margin, sliceMargin, fs).value.lesionId == lesionId
    ensures |LesionOutcome(version, lesionId, m, outDir, margin, sliceMargin, fs).value.pages|
      == if LesionOutcome(version, lesionId, m, outDir, margin, sliceMargin, fs).value.numSlices < 0 then 0
         else LesionOutcome(version, lesionId, m, outDir, margin, sliceMargin, fs).value.numSlices
  {
    var t1 := fs.load(m.underlay.value).value;
    CroppedCount(version, lesionId, outDir, t1, LoadedMasks(m, fs, READERS), margin, sliceMargin);
  }

  /** Cropping volumes of one shape with the same bounds gives volumes of one shape. */
  lemma CroppedShapesAgree(t1: Vol, masks: seq<ReaderMask>, b: Bounds)
    requires ShapesAgree(t1, masks)
    ensures ShapesAgree(CropImage(t1, b), CropAll(masks, b))
  {
  }

  /** A slice range inside `[0, n2]` fits every volume cropped to it. */
  lemma CroppedFits(t1: Vol, masks: seq<ReaderMask>, b: Bounds)
    requires ShapesAgree(t1, masks)
    requires 0 <= b.b2.lo && b.b2.hi <= t1.shape.n2
    ensures Fits(CropImage(t1, b), CropAll(masks, b), b.b2)
  {
    CroppedShapesAgree(t1, masks, b);
  }

  /** An underlay that loads and at least one mask that loads: the outcome is the crop's. */
  lemma OutcomeIsCropped(version: Version, lesionId: string, m: LesionMatch, outDir: string,
                         margin: int, sliceMargin: int, fs: Files, t1: Vol)
    requires m.underlay.Some? && fs.present(m.underlay.value) && fs.load(m.underlay.value) == Some(t1)
    requires LoadedMasks(m, fs, READERS) != []
    ensures LesionOutcome(version, lesionId, m, outDir, margin, sliceMargin, fs)
      == Cropped(version, lesionId, outDir, t1, LoadedMasks(m, fs, READERS), margin, sliceMargin)
  {
  }

  /**
   * A crop window that exists hands the cropped volumes and its slice range
   * to the renderer: when they fit, page `t` is slice `lo + t`.
   */
  lemma CroppedPageAt(version: Version, lesionId: string, outDir: string, t1: Vol, masks: seq<ReaderMask>,
                      margin: int, sliceMargin: int, w: CropWindow, t: nat)
    requires masks != [] && CenterAndMargin(BoundsMasks(version, masks), margin, sliceMargin) == Ok(w)
    requires Renderable(version, CropImage(t1, w.bounds), CropAll(masks, w.bounds), w.sliceRange)
    requires t < SliceCount(w.sliceRange)
    ensures Cropped(version, lesionId, outDir, t1, masks, margin, sliceMargin).Some?
    ensures |Cropped(version, lesionId, outDir, t1, masks, margin, sliceMargin).value.pages| == SliceCount(w.sliceRange)
    ensures Cropped(version, lesionId, outDir, t1, masks, margin, sliceMargin).value.pages[t].path
      == SlicePath(outDir, lesionId, w.sliceRange.lo + t)
  {
    DrawnPageAt(version, lesionId, outDir, CropImage(t1, w.bounds), CropAll(masks, w.bounds), w.sliceRange, t);
  }

  /**
   * The current renderer's crop window on masks of one shape, one of which
   * has a foreground voxel, with a non-negative slice margin: it exists, its
   * slice range holds the voxel's slice, and the cropped volumes fit it.
   */
  lemma CurrentWindow(t1: Vol, masks: seq<ReaderMask>, margin: int, sliceMargin: int, k: nat, c: Coord)
    returns (w: CropWindow)
    requires sliceMargin >= 0 && ShapesAgree(t1, masks)
    requires k < |masks| && InVolume(masks[k].mask, c) && At(masks[k].mask, c) != 0
    ensures CenterAndMargin(BoundsMasks(Current, masks), margin, sliceMargin) == Ok(w)
    ensures w.sliceRange.lo <= c.k < w.sliceRange.hi
    ensures Renderable(Current, CropImage(t1, w.bounds), CropAll(masks, w.bounds), w.sliceRange)
  {
    var vs := Vols(masks);
    assert SameShape(vs);
    SliceRangeCoversForeground(vs, margin, sliceMargin, k, c);
    w := CenterAndMargin(vs, margin, sliceMargin).value;
    assert w.bounds.b2 == w.sliceRange;
    CroppedFits(t1, masks, w.bounds);
    CroppedShapesAgree(t1, masks, w.bounds);
  }

  /**
   * The current renderer on masks of one shape with a non-negative slice
   * margin: the crop succeeds as soon as one mask has a foreground voxel,
   * and the slice of that voxel gets its page.
   */
  lemma CurrentCropRendersSlice(lesionId: string, outDir: string, t1: Vol, masks: seq<ReaderMask>,
                                margin: int, sliceMargin: int, k: nat, c: Coord) returns (t: nat)
    requires sliceMargin >= 0 && ShapesAgree(t1, masks)
    requires k < |masks| && InVolume(masks[k].mask, c) && At(masks[k].mask, c) != 0
    ensures Cropped(Current, lesionId, outDir, t1, masks, margin, sliceMargin).Some?
    ensures t < |Cropped(Current, lesionId, outDir, t1, masks, margin, sliceMargin).value.pages|
    ensures Cropped(Current, lesionId, outDir, t1, masks, margin, sliceMargin).value.pages[t].path == SlicePath(outDir, lesionId, c.k)
  {
    var w := CurrentWindow(t1, masks, margin, sliceMargin, k, c);
    t := c.k - w.sliceRange.lo;
    CroppedPageAt(Current, lesionId, outDir, t1, masks, margin, sliceMargin, w, t);
  }

  /**
   * The current renderer (scripts/image_processing.py), every reader mask
   * of the underlay's shape, a non-negative slice margin: as soon as one
   * loaded mask has a foreground voxel the lesion is rendered, and the slice
   * of that voxel has its page, whichever reader drew it.
   */
  lemma CurrentRendersEveryForegroundSlice(lesionId: string, m: LesionMatch, outDir: string,
                                           margin: int, sliceMargin: int, fs: Files, k: nat, c: Coord)
    requires sliceMargin >= 0
    requires m.underlay.Some? && fs.present(m.underlay.value) && fs.load(m.underlay.value).Some?
    requires ShapesAgree(fs.load(m.underlay.value).value, LoadedMasks(m, fs, READERS))
    requires k < |LoadedMasks(m, fs, READERS)|
    requires InVolume(LoadedMasks(m, fs, READERS)[k].mask, c) && At(LoadedMasks(m, fs, READERS)[k].mask, c) != 0
    ensures LesionOutcome(Current, lesionId, m, outDir, margin, sliceMargin, fs).Some?
    ensures exists t :: (0 <= t < |LesionOutcome(Current, lesionId, m, outDir, margin, sliceMargin, fs).value.pages|
      && LesionOutcome(Current, lesionId, m, outDir, margin, sliceMargin, fs).value.pages[t].path == SlicePath(outDir, lesionId, c.k))
  {
    var t1 := fs.load(m.underlay.value).value;
    var t := CurrentCropRendersSlice(lesionId, outDir, t1, LoadedMasks(m, fs, READERS), margin, sliceMargin, k, c);
  }

  // ---------------------------------------------------------------------------
  // The legacy renderer's crop window
  // ---------------------------------------------------------------------------

  /** One voxel on slice 0 of a 1 x 1 x 3 volume. */
  const FIRST_SLICE_ONLY: Vol := Volume(Shape(1, 1, 3), [[[1, 0, 0]]])

  /** One voxel on slice 2 of a 1 x 1 x 3 volume. */
  const LAST_SLICE_ONLY: Vol := Volume(Shape(1, 1, 3), [[[0, 0, 1]]])

  const EMPTY_UNDERLAY: Vol := Volume(Shape(1, 1, 3), [[[0, 0, 0]]])

  /** Every path exists; "r1" and "r2" hold the two reader masks, anything else the underlay. */
  function TwoReaderFiles(): Files {
    Files(p => true, p => if p == "r1" then Some(FIRST_SLICE_ONLY) else if p == "r2" then Some(LAST_SLICE_ONLY) else Some(EMPTY_UNDERLAY))
  }

  /** Reader_1 marks slice 0 and Reader_2 marks slice 2. */
  function TwoReaderMatch(): LesionMatch {
    LesionMatch(Some("t1"), Some("r1"), Some("r2"))
  }

  lemma TwoReadersLoaded()
    ensures LoadedMasks(TwoReaderMatch(), TwoReaderFiles(), READERS) == TwoMasks(FIRST_SLICE_ONLY, LAST_SLICE_ONLY)
    ensures TwoReaderFiles().load("t1") == Some(EMPTY_UNDERLAY)
  {
    assert READER_1[7] != READER_2[7];
    assert "r2"[1] != "r1"[1];
    assert LoadedMask(TwoReaderMatch(), TwoReaderFiles(), READER_1) == Some(FIRST_SLICE_ONLY);
    assert LoadedMask(TwoReaderMatch(), TwoReaderFiles(), READER_2) == Some(LAST_SLICE_ONLY);
    assert READERS[..1] == [READER_1];
    assert READERS[..1][..0] == [];
  }

  /** The one foreground voxel of `FIRST_SLICE_ONLY`. */
  lemma FirstSliceCoords()
    ensures Nonzero(FIRST_SLICE_ONLY) == [Coord(0, 0, 0)]
  {
    var line := FIRST_SLICE_ONLY.v[0][0];
    assert line == [1, 0, 0];
    assert LineCoords(line, 0, 0, 0) == [];
    assert LineCoords(line, 0, 0, 1) == [Coord(0, 0, 0)];
    assert LineCoords(line, 0, 0, 2) == LineCoords(line, 0, 0, 1);
    assert LineCoords(line, 0, 0, 3) == LineCoords(line, 0, 0, 2);
    var plane := FIRST_SLICE_ONLY.v[0];
    assert PlaneCoords(plane, 0, 1) == PlaneCoords(plane, 0, 0) + LineCoords(line, 0, 0, 3);
    assert GridCoords(FIRST_SLICE_ONLY.v, 1) == GridCoords(FIRST_SLICE_ONLY.v, 0) + PlaneCoords(plane, 0, 1);
  }

  /** One coordinate: its own centre, minimum and maximum on every axis. */
  lemma SingleCoordStats(c: Coord, a: nat)
    ensures Center([c], a) == Axis(c, a)
    ensures AxisMin([c], a) == Axis(c, a) && AxisMax([c], a) == Axis(c, a)
  {
    assert [c][..0] == [];
    assert AxisSum([c], a) == AxisSum([], a) + Axis(c, a);
    assert Center([c], a) == Axis(c, a) / 1;
  }

  /** Pooling the voxels of one mask gives its own voxels. */
  lemma OneMaskPooled(x: Vol)
    ensures AllCoords([x]) == Nonzero(x)
  {
    assert [x][..0] == [];
  }

  /** The window around a single foreground voxel. */
  lemma SingleVoxelWindow(x: Vol, c: Coord, margin: int, sliceMargin: int)
    requires AllCoords([x]) == [c]
    ensures CenterAndMargin([x], margin, sliceMargin)
      == Ok(CropWindow(Bounds(Span(Max(0, c.i - margin), Min(x.shape.n0, c.i + margin)),
                              Span(Max(0, c.j - margin), Min(x.shape.n1, c.j + margin)),
                              Span(Max(0, c.k - sliceMargin), Min(x.shape.n2, c.k + sliceMargin + 1))),
                       Span(Max(0, c.k - sliceMargin), Min(x.shape.n2, c.k + sliceMargin + 1))))
  {
    var cs := AllCoords([x]);
    SingleCoordStats(c, 0);
    SingleCoordStats(c, 1);
    SingleCoordStats(c, 2);
    assert InPlaneSpan(cs, 0, x.shape.n0, margin) == Span(Max(0, c.i - margin), Min(x.shape.n0, c.i + margin));
    assert InPlaneSpan(cs, 1, x.shape.n1, margin) == Span(Max(0, c.j - margin), Min(x.shape.n1, c.j + margin));
    assert AxisMin(cs, 2) == c.k && AxisMax(cs, 2) == c.k;
  }

  /** The window of a 1 x 1 x 3 mask whose one voxel is on slice 0: slice range `[0, 1)`. */
  lemma FirstMaskWindow(x: Vol)
    requires x.shape == Shape(1, 1, 3) && Nonzero(x) == [Coord(0, 0, 0)]
    ensures CenterAndMargin([x], 1, 0) == Ok(CropWindow(Bounds(Span(0, 1), Span(0, 1), Span(0, 1)), Span(0, 1)))
  {
    OneMaskPooled(x);
    SingleVoxelWindow(x, Coord(0, 0, 0), 1, 0);
    assert Max(0, 0 - 1) == 0 && Min(1, 0 + 1) == 1;
    assert Max(0, 0 - 0) == 0 && Min(3, 0 + 0 + 1) == 1;
  }

  /** Both readers' masks, in reader order. */
  function TwoMasks(x1: Vol, x2: Vol): seq<ReaderMask> {
    [ReaderMask(READER_1, x1), ReaderMask(READER_2, x2)]
  }

  /**
   * The legacy window of two 1 x 1 x 3 readers, the first with its one voxel
   * on slice 0, is the first mask's, and the crop of a like underlay fits it.
   */
  lemma LegacyTwoReaderWindow(x1: Vol, x2: Vol, u: Vol) returns (w: CropWindow)
    requires x1.shape == Shape(1, 1, 3) && Nonzero(x1) == [Coord(0, 0, 0)]
    requires x2.shape == Shape(1, 1, 3) && u.shape == Shape(1, 1, 3)
    ensures CenterAndMargin(BoundsMasks(Legacy, TwoMasks(x1, x2)), 1, 0) == Ok(w)
    ensures w.sliceRange == Span(0, 1)
    ensures Renderable(Legacy, CropImage(u, w.bounds), CropAll(TwoMasks(x1, x2), w.bounds), w.sliceRange)
  {
    FirstMaskWindow(x1);
    assert BoundsMasks(Legacy, TwoMasks(x1, x2)) == [x1];
    w := CropWindow(Bounds(Span(0, 1), Span(0, 1), Span(0, 1)), Span(0, 1));
    assert SliceLength(3, 0, 1) == 1;
  }

  /**
   * image_processing.py takes the crop window from the first loaded mask
   * only: with Reader_1 marking slice 0 and Reader_2 marking slice 2 (in-plane
   * margin 1, slice margin 0), the one page rendered is slice 0, and
   * Reader_2's lesion is never shown.
   */
  lemma LegacyMissesSecondReader()
    ensures LAST_SLICE_ONLY.shape.n2 == 3 && At(LAST_SLICE_ONLY, Coord(0, 0, 2)) != 0
    ensures LesionOutcome(Legacy, "L", TwoReaderMatch(), "out", 1, 0, TwoReaderFiles()).Some?
    ensures |LesionOutcome(Legacy, "L", TwoReaderMatch(), "out", 1, 0, TwoReaderFiles()).value.pages| == 1
    ensures LesionOutcome(Legacy, "L", TwoReaderMatch(), "out", 1, 0, TwoReaderFiles()).value.pages[0].path
      == SlicePath("out", "L", 0)
  {
    var masks := TwoMasks(FIRST_SLICE_ONLY, LAST_SLICE_ONLY);
    TwoReadersLoaded();
    FirstSliceCoords();
    OutcomeIsCropped(Legacy, "L", TwoReaderMatch(), "out", 1, 0, TwoReaderFiles(), EMPTY_UNDERLAY);
    var w := LegacyTwoReaderWindow(FIRST_SLICE_ONLY, LAST_SLICE_ONLY, EMPTY_UNDERLAY);
    CroppedPageAt(Legacy, "L", "out", EMPTY_UNDERLAY, masks, 1, 0, w, 0);
  }

  /**
   * The same two readers under the current renderer: the pooled window
   * gives Reader_2's slice 2 its page.
   */
  lemma CurrentShowsSecondReader()
    ensures LesionOutcome(Current, "L", TwoReaderMatch(), "out", 1, 0, TwoReaderFiles()).Some?
    ensures exists t :: (0 <= t < |LesionOutcome(Current, "L", TwoReaderMatch(), "out", 1, 0, TwoReaderFiles()).value.pages|
      && LesionOutcome(Current, "L", TwoReaderMatch(), "out", 1, 0, TwoReaderFiles()).value.pages[t].path == SlicePath("out", "L", 2))
  {
    TwoReadersLoaded();
    assert At(LAST_SLICE_ONLY, Coord(0, 0, 2)) != 0;
    CurrentRendersEveryForegroundSlice("L", TwoReaderMatch(), "out", 1, 0, TwoReaderFiles(), 1, Coord(0, 0, 2));
  }
}
