/**
 * Rendering the slices of one lesion (`save_slices_as_jpeg`,
 * `process_single_lesion` and `process_lesions` of
 * scripts/image_processing.py, and their older versions in
 * image_processing.py).
 *
 * A rendered slice is a `SlicePage`: the path of its JPEG file, the underlay
 * slice it shows, the contrast of each figure row and one panel per reader.
 * A reader panel is the reader's overlay (`true` where the mask is positive)
 * or a "No Data" panel. Colours, rotation, titles and the floating-point
 * windowing are not part of a page; the percentile window is represented by
 * the intensities it is computed from.
 *
 * The file system is a parameter: which paths exist and what loading a path
 * gives (`None` when nibabel fails).
 */
module SliceRendering {
  import opened Wrappers
  import opened Strings
  import opened Readers
  import opened Volumes
  import opened CropGeometry
  import opened LesionTable

  /** scripts/image_processing.py (`Current`) or the older image_processing.py (`Legacy`). */
  datatype Version = Current | Legacy

  /** The files `process_single_lesion` can see. */
  datatype Files = Files(present: string -> bool, load: string -> Option<Vol>)

  /** One entry of the `mask_images` dict. */
  datatype ReaderMask = ReaderMask(reader: string, mask: Vol)

  // ---------------------------------------------------------------------------
  // The combined mask and the optimal window (Current only)
  // ---------------------------------------------------------------------------

  function OrLine(a: seq<int>, m: seq<int>): (r: seq<int>)
    requires |a| == |m|
    ensures |r| == |a|
  {
    seq(|a|, k requires 0 <= k < |a| => if a[k] != 0 || m[k] > 0 then 1 else 0)
  }

  function OrPlane(a: seq<seq<int>>, m: seq<seq<int>>): (r: seq<seq<int>>)
    requires |a| == |m| && forall j :: 0 <= j < |a| ==> |a[j]| == |m[j]|
    ensures |r| == |a| && forall j :: 0 <= j < |r| ==> |r[j]| == |a[j]|
  {
    seq(|a|, j requires 0 <= j < |a| => OrLine(a[j], m[j]))
  }

  /** `np.logical_or(a, m > 0)`, with `True` as 1. */
  function OrMask(a: Vol, m: Vol): (r: Vol)
    requires a.shape == m.shape
    ensures r.shape == a.shape
  {
    Volume(a.shape, seq(a.shape.n0, i requires 0 <= i < a.shape.n0 => OrPlane(a.v[i], m.v[i])))
  }

  /** `np.zeros_like(x)` for a volume of shape `s`. */
  function Zeros(s: Shape): (r: Vol)
    ensures r.shape == s
  {
    Volume(s, seq(s.n0, _ => seq(s.n1, _ => seq(s.n2, _ => 0))))
  }

  /** Every mask has the underlay's shape (otherwise `np.logical_or` raises). */
  predicate ShapesAgree(t1: Vol, masks: seq<ReaderMask>) {
    forall t :: 0 <= t < |masks| ==> masks[t].mask.shape == t1.shape
  }

  /** The combined mask after the first `n` masks. */
  function Combined(t1: Vol, masks: seq<ReaderMask>, n: nat): (r: Vol)
    requires ShapesAgree(t1, masks) && n <= |masks|
    ensures r.shape == t1.shape
  {
    if n == 0 then Zeros(t1.shape) else OrMask(Combined(t1, masks, n - 1), masks[n - 1].mask)
  }

  /** Lines 116-118 of `save_slices_as_jpeg`. */
  method CombineMasks(t1: Vol, masks: seq<ReaderMask>) returns (combined: Vol)
    requires ShapesAgree(t1, masks)
    ensures combined == Combined(t1, masks, |masks|)
  {
    combined := Zeros(t1.shape);
    for t := 0 to |masks|
      invariant combined == Combined(t1, masks, t)
    {
      combined := OrMask(combined, masks[t].mask);
    }
  }

  /**
   * `t1_image[combined_mask > 0]`: the underlay values under the combined
   * mask in C order (its voxels are 0 or 1, so positive means non-zero).
   */
  function MaskedIntensities(t1: Vol, combined: Vol): (xs: seq<int>)
    requires combined.shape == t1.shape
    ensures |xs| == |Nonzero(combined)|
  {
    var cs := Nonzero(combined);
    NonzeroMembers(combined);
    seq(|cs|, t requires 0 <= t < |cs| => assert cs[t] in cs; At(t1, cs[t]))
  }

  /**
   * `calculate_optimal_window`: no window when nothing lies under the mask,
   * otherwise the intensities its median and percentiles are taken from.
   */
  function OptimalWindow(t1: Vol, combined: Vol): Option<seq<int>>
    requires combined.shape == t1.shape
  {
    var xs := MaskedIntensities(t1, combined);
    if xs == [] then None else Some(xs)
  }

  // ---------------------------------------------------------------------------
  // Pages
  // ---------------------------------------------------------------------------

  /** The contrast of one figure row. */
  datatype Contrast =
    | DefaultWindow                            // matplotlib's own scaling
    | PercentileWindow(intensities: seq<int>)  // median ± (p99 - p01) of these values
    | EqualizedHistogram                       // `exposure.equalize_hist`

  /** One reader column: the overlay (`true` where the mask is positive) or "No Data". */
  datatype Panel = Overlay(reader: string, alpha: seq<seq<bool>>) | NoData(reader: string)

  /** One saved JPEG. */
  datatype SlicePage = SlicePage(path: string, underlay: seq<seq<int>>, rows: seq<Contrast>, panels: seq<Panel>)

  /** `f'{lesion_id}_{i:03d}.jpg'`. */
  function SliceFileName(lesionId: string, i: int): string {
    lesionId + "_" + FormatInt(i, 3) + ".jpg"
  }

  function SlicePath(outDir: string, lesionId: string, i: int): string {
    PathJoin(PathJoin(outDir, "slices"), SliceFileName(lesionId, i))
  }

  /** `x[:, :, s]`. */
  function PlaneAt(x: Vol, s: nat): seq<seq<int>>
    requires s < x.shape.n2
  {
    seq(x.shape.n0, i requires 0 <= i < x.shape.n0 => seq(x.shape.n1, j requires 0 <= j < x.shape.n1 => x.v[i][j][s]))
  }

  /** Where `np.where(x[:, :, s] > 0, 0.5, 0)` is not zero. */
  function AlphaAt(x: Vol, s: nat): seq<seq<bool>>
    requires s < x.shape.n2
  {
    seq(x.shape.n0, i requires 0 <= i < x.shape.n0 => seq(x.shape.n1, j requires 0 <= j < x.shape.n1 => x.v[i][j][s] > 0))
  }

  /** The position of reader `r` in `mask_images`, or `|masks|` when `reader in mask_images` is false. */
  function MaskIndex(masks: seq<ReaderMask>, r: string): (t: nat)
    ensures t <= |masks|
    ensures t < |masks| ==> masks[t].reader == r
    ensures forall u :: 0 <= u < t ==> masks[u].reader != r
  {
    if masks == [] then 0
    else if masks[0].reader == r then 0
    else 1 + MaskIndex(masks[1..], r)
  }

  /** Every mask has at least `depth` slices. */
  predicate MasksDeep(masks: seq<ReaderMask>, depth: nat) {
    forall t :: 0 <= t < |masks| ==> depth <= masks[t].mask.shape.n2
  }

  /** The column of reader `r` on cropped slice `s`. */
  function PanelOf(masks: seq<ReaderMask>, r: string, s: nat): Panel
    requires MasksDeep(masks, s + 1)
  {
    var t := MaskIndex(masks, r);
    if t < |masks| then Overlay(r, AlphaAt(masks[t].mask, s)) else NoData(r)
  }

  /** The figure rows: default and optimised window (Current), equalised histogram (Legacy). */
  function Rows(version: Version, window: Option<seq<int>>): seq<Contrast> {
    match version
    case Current => [DefaultWindow, if window.Some? then PercentileWindow(window.value) else DefaultWindow]
    case Legacy => [EqualizedHistogram]
  }

  /** The page of volume slice `i`, drawn from cropped slice `i - lo`. */
  function Page(version: Version, window: Option<seq<int>>, outDir: string, lesionId: string,
                t1: Vol, masks: seq<ReaderMask>, lo: int, i: int): SlicePage
    requires 0 <= i - lo < t1.shape.n2 && MasksDeep(masks, i - lo + 1)
  {
    SlicePage(SlicePath(outDir, lesionId, i), PlaneAt(t1, i - lo), Rows(version, window),
              [PanelOf(masks, READER_1, i - lo), PanelOf(masks, READER_2, i - lo)])
  }

  /** The length of `range(lo, hi)`. */
  function SliceCount(range: Span): nat {
    if range.hi <= range.lo then 0 else range.hi - range.lo
  }

  /** Every slice index the loop reads exists in the underlay and in every mask (otherwise IndexError). */
  predicate Fits(t1: Vol, masks: seq<ReaderMask>, range: Span) {
    SliceCount(range) <= t1.shape.n2 && MasksDeep(masks, SliceCount(range))
  }

  /** The pages of `range(lo, hi)`, in order. */
  function Pages(version: Version, window: Option<seq<int>>, outDir: string, lesionId: string,
                 t1: Vol, masks: seq<ReaderMask>, range: Span): (ps: seq<SlicePage>)
    requires Fits(t1, masks, range)
    ensures |ps| == SliceCount(range)
  {
    seq(SliceCount(range), t requires 0 <= t < SliceCount(range) =>
      Page(version, window, outDir, lesionId, t1, masks, range.lo, range.lo + t))
  }

  /** The window the optimised row uses; the legacy renderer has none. */
  function WindowFor(version: Version, t1: Vol, masks: seq<ReaderMask>): Option<seq<int>>
    requires version == Current ==> ShapesAgree(t1, masks)
  {
    if version == Legacy then None else OptimalWindow(t1, Combined(t1, masks, |masks|))
  }

  /** Lines 115-121 of `save_slices_as_jpeg` (Current): the combined mask and the window from it. */
  method ChooseWindow(version: Version, t1: Vol, masks: seq<ReaderMask>) returns (window: Option<seq<int>>)
    requires version == Current ==> ShapesAgree(t1, masks)
    ensures window == WindowFor(version, t1, masks)
  {
    window := None;
    if version == Current {
      var combined := CombineMasks(t1, masks);
      window := OptimalWindow(t1, combined);
    }
  }

  /** The slice loop of `save_slices_as_jpeg`: one page per `i` in `range(lo, hi)`. */
  method DrawSlices(version: Version, window: Option<seq<int>>, outDir: string, lesionId: string,
                    t1: Vol, masks: seq<ReaderMask>, range: Span) returns (pages: seq<SlicePage>)
    requires Fits(t1, masks, range)
    ensures pages == Pages(version, window, outDir, lesionId, t1, masks, range)
  {
    ghost var all := Pages(version, window, outDir, lesionId, t1, masks, range);
    pages := [];
    if range.lo < range.hi {
      for i := range.lo to range.hi
        invariant pages == all[..i - range.lo]
      {
        var page := Page(version, window, outDir, lesionId, t1, masks, range.lo, i);
        PagesPrefix(version, window, outDir, lesionId, t1, masks, range, i - range.lo);
        pages := pages + [page];
      }
    }
    assert all[..SliceCount(range)] == all;
  }

  lemma PagesPrefix(version: Version, window: Option<seq<int>>, outDir: string, lesionId: string,
                    t1: Vol, masks: seq<ReaderMask>, range: Span, t: nat)
    requires Fits(t1, masks, range) && t < SliceCount(range)
    ensures Pages(version, window, outDir, lesionId, t1, masks, range)[..t + 1]
      == Pages(version, window, outDir, lesionId, t1, masks, range)[..t]
      + [Page(version, window, outDir, lesionId, t1, masks, range.lo, range.lo + t)]
  {
  }

  /** `save_slices_as_jpeg` on cropped volumes: the pages it saves and the count it returns. */
  method SaveSlices(version: Version, t1: Vol, masks: seq<ReaderMask>, outDir: string, lesionId: string, range: Span)
    returns (pages: seq<SlicePage>, numSlices: int)
    requires version == Current ==> ShapesAgree(t1, masks)
    requires Fits(t1, masks, range)
    ensures pages == Pages(version, WindowFor(version, t1, masks), outDir, lesionId, t1, masks, range)
    ensures numSlices == range.hi - range.lo
  {
    var window := ChooseWindow(version, t1, masks);
    pages := DrawSlices(version, window, outDir, lesionId, t1, masks, range);
    numSlices := range.hi - range.lo;
  }

  // ---------------------------------------------------------------------------
  // One lesion
  // ---------------------------------------------------------------------------

  /** `match[reader]`. */
  function ReaderPath(m: LesionMatch, r: string): Option<string> {
    if r == READER_1 then m.reader1 else m.reader2
  }

  /** The mask one iteration of the reader loop adds: a truthy path that exists and loads. */
  function LoadedMask(m: LesionMatch, fs: Files, r: string): Option<Vol> {
    match ReaderPath(m, r)
    case None => None
    case Some(p) => if p != "" && fs.present(p) then fs.load(p) else None
  }

  /** `mask_images` after the readers `rs`. */
  function LoadedMasks(m: LesionMatch, fs: Files, rs: seq<string>): (masks: seq<ReaderMask>)
    ensures |masks| <= |rs|
  {
    if rs == [] then []
    else
      var r := rs[|rs| - 1];
      LoadedMasks(m, fs, rs[..|rs| - 1]) + match LoadedMask(m, fs, r) case Some(x) => [ReaderMask(r, x)] case None => []
  }

  /** The reader loop of `process_single_lesion`. */
  method LoadReaderMasks(m: LesionMatch, fs: Files) returns (masks: seq<ReaderMask>)
    ensures masks == LoadedMasks(m, fs, READERS)
  {
    masks := [];
    for k := 0 to |READERS|
      invariant masks == LoadedMasks(m, fs, READERS[..k])
    {
      var reader := READERS[k];
      assert READERS[..k + 1][..k] == READERS[..k];
      var path := ReaderPath(m, reader);
      if path.Some? && path.value != "" {
        if fs.present(path.value) {
          var mask := fs.load(path.value);
          if mask.Some? {
            masks := masks + [ReaderMask(reader, mask.value)];
          }
        }
      }
    }
    assert READERS[..|READERS|] == READERS;
  }

  function Vols(masks: seq<ReaderMask>): (vs: seq<Vol>)
    ensures |vs| == |masks| && forall t :: 0 <= t < |masks| ==> vs[t] == masks[t].mask
  {
    seq(|masks|, t requires 0 <= t < |masks| => masks[t].mask)
  }

  /** The masks the crop window is computed from: all of them (Current) or the first one (Legacy). */
  function BoundsMasks(version: Version, masks: seq<ReaderMask>): seq<Vol>
    requires masks != []
  {
    match version
    case Current => Vols(masks)
    case Legacy => [masks[0].mask]
  }

  /** `{reader: crop_image(mask, bounds) for reader, mask in mask_images.items()}`. */
  function CropAll(masks: seq<ReaderMask>, b: Bounds): (cs: seq<ReaderMask>)
    ensures |cs| == |masks|
    ensures forall t :: 0 <= t < |masks| ==> cs[t] == ReaderMask(masks[t].reader, CropImage(masks[t].mask, b))
  {
    seq(|masks|, t requires 0 <= t < |masks| => ReaderMask(masks[t].reader, CropImage(masks[t].mask, b)))
  }

  /** The cropped volumes can be drawn without an exception. */
  predicate Renderable(version: Version, t1: Vol, masks: seq<ReaderMask>, range: Span) {
    (version == Current ==> ShapesAgree(t1, masks)) && Fits(t1, masks, range)
  }

  /** What `process_single_lesion` reports: the lesion, the slice count and the pages saved. */
  datatype LesionSlices = LesionSlices(lesionId: string, numSlices: int, pages: seq<SlicePage>)

  /** Drawing the cropped volumes: `None` when drawing raises, otherwise the count and the pages. */
  function Drawn(version: Version, lesionId: string, outDir: string, t1: Vol, masks: seq<ReaderMask>, range: Span)
    : Option<LesionSlices>
  {
    if !Renderable(version, t1, masks, range) then None
    else Some(LesionSlices(lesionId, range.hi - range.lo,
                           Pages(version, WindowFor(version, t1, masks), outDir, lesionId, t1, masks, range)))
  }

  /** Lines 198-204 of `process_single_lesion`: the crop window, the cropping and the drawing. */
  function Cropped(version: Version, lesionId: string, outDir: string, t1: Vol, masks: seq<ReaderMask>,
                   margin: int, sliceMargin: int): Option<LesionSlices>
    requires masks != []
  {
    match CenterAndMargin(BoundsMasks(version, masks), margin, sliceMargin)
    case Err(_) => None
    case Ok(w) => Drawn(version, lesionId, outDir, CropImage(t1, w.bounds), CropAll(masks, w.bounds), w.sliceRange)
  }

  /**
   * `process_single_lesion`: `None` when the underlay is NaN, missing or
   * unloadable, when no reader mask loads, when the crop window cannot be
   * computed, or when drawing raises (shapes that do not combine, a slice
   * index beyond a cropped volume).
   */
  function LesionOutcome(version: Version, lesionId: string, m: LesionMatch, outDir: string,
                         margin: int, sliceMargin: int, fs: Files): Option<LesionSlices>
  {
    if m.underlay.None? || !fs.present(m.underlay.value) then None
    else match fs.load(m.underlay.value)
      case None => None
      case Some(t1) =>
        var masks := LoadedMasks(m, fs, READERS);
        if masks == [] then None else Cropped(version, lesionId, outDir, t1, masks, margin, sliceMargin)
  }

  /** Lines 202-204 of `process_single_lesion`: drawing the cropped volumes. */
  method DrawCropped(version: Version, lesionId: string, outDir: string, t1: Vol, masks: seq<ReaderMask>, range: Span)
    returns (r: Option<LesionSlices>)
    ensures r == Drawn(version, lesionId, outDir, t1, masks, range)
  {
    r := None;
    if Renderable(version, t1, masks, range) {
      var pages, numSlices := SaveSlices(version, t1, masks, outDir, lesionId, range);
      r := Some(LesionSlices(lesionId, numSlices, pages));
    }
  }

  /** Lines 198-204 of `process_single_lesion`. */
  method CropAndSave(version: Version, lesionId: string, outDir: string, t1: Vol, masks: seq<ReaderMask>,
                     margin: int, sliceMargin: int) returns (r: Option<LesionSlices>)
    requires masks != []
    ensures r == Cropped(version, lesionId, outDir, t1, masks, margin, sliceMargin)
  {
    r := None;
    var w := CenterAndMargin(BoundsMasks(version, masks), margin, sliceMargin);
    if w.Ok? {
      var croppedT1 := CropImage(t1, w.value.bounds);
      var cropped := CropAll(masks, w.value.bounds);
      r := DrawCropped(version, lesionId, outDir, croppedT1, cropped, w.value.sliceRange);
    }
  }

  method ProcessSingleLesion(version: Version, lesionId: string, m: LesionMatch, outDir: string,
                             margin: int, sliceMargin: int, fs: Files)
    returns (r: Option<LesionSlices>)
    ensures r == LesionOutcome(version, lesionId, m, outDir, margin, sliceMargin, fs)
  {
    r := None;
    if m.underlay.Some? && fs.present(m.underlay.value) {
      var t1 := fs.load(m.underlay.value);
      if t1.Some? {
        var masks := LoadReaderMasks(m, fs);
        if masks != [] {
          r := CropAndSave(version, lesionId, outDir, t1.value, masks, margin, sliceMargin);
        }
      }
    }
  }

  // ---------------------------------------------------------------------------
  // All lesions
  // ---------------------------------------------------------------------------

  /** Every listed id has an entry. */
  predicate KeysListed(table: LesionMatches) {
    forall k :: 0 <= k < |table.ids| ==> table.ids[k] in table.byId
  }

  /** The `(lesion_id, num_slices)` pairs of the first `n` lesions that were rendered. */
  function Processed(version: Version, table: LesionMatches, outDir: string, margin: int, sliceMargin: int,
                    fs: Files, n: nat): (rs: seq<(string, int)>)
    requires KeysListed(table) && n <= |table.ids|
    ensures |rs| <= n
  {
    if n == 0 then []
    else
      var id := table.ids[n - 1];
      Processed(version, table, outDir, margin, sliceMargin, fs, n - 1)
        + match LesionOutcome(version, id, table.byId[id], outDir, margin, sliceMargin, fs)
          case Some(s) => [(s.lesionId, s.numSlices)]
          case None => []
  }

  lemma TableKeysListed(tsv: Tsv)
    ensures MatchTable(tsv).Ok? ==> KeysListed(MatchTable(tsv).value)
  {
    FoldedKeys(tsv, |tsv.rows|);
  }

  /** What `process_lesions` returns for a table, or the error reading it raises. */
  function LesionsOutcome(version: Version, tsv: Tsv, outDir: string, margin: int, sliceMargin: int, fs: Files)
    : Result<seq<(string, int)>, TsvError>
  {
    TableKeysListed(tsv);
    match MatchTable(tsv)
    case Err(e) => Err(e)
    case Ok(table) => Ok(Processed(version, table, outDir, margin, sliceMargin, fs, |table.ids|))
  }

  /** One iteration of `process_lesions`: the next lesion of the table, kept when it was rendered. */
  method ProcessNext(version: Version, table: LesionMatches, outDir: string, margin: int, sliceMargin: int,
                     fs: Files, k: nat, results: seq<(string, int)>) returns (results': seq<(string, int)>)
    requires KeysListed(table) && k < |table.ids|
    requires results == Processed(version, table, outDir, margin, sliceMargin, fs, k)
    ensures results' == Processed(version, table, outDir, margin, sliceMargin, fs, k + 1)
  {
    var id := table.ids[k];
    var res := ProcessSingleLesion(version, id, table.byId[id], outDir, margin, sliceMargin, fs);
    results' := results;
    if res.Some? {
      results' := results + [(res.value.lesionId, res.value.numSlices)];
    }
  }

  /** `process_lesions`, one lesion after another in table order. */
  method ProcessLesions(version: Version, tsv: Tsv, outDir: string, margin: int, sliceMargin: int, fs: Files)
    returns (r: Result<seq<(string, int)>, TsvError>)
    ensures r == LesionsOutcome(version, tsv, outDir, margin, sliceMargin, fs)
  {
    var matches := ReadLesionMatches(tsv);
    TableKeysListed(tsv);
    if matches.Err? {
      r := Err(matches.error);
    } else {
      var table := matches.value;
      var results: seq<(string, int)> := [];
      for k := 0 to |table.ids|
        invariant results == Processed(version, table, outDir, margin, sliceMargin, fs, k)
      {
        results := ProcessNext(version, table, outDir, margin, sliceMargin, fs, k, results);
      }
      r := Ok(results);
    }
  }
}
