/**
 * Splitting a reader's label mask into one file per lesion
 * (scripts/Isolate_lesions.py).
 *
 * `process_mask` takes every label value of the mask except the smallest
 * (the background), builds the binary mask of that label, optionally closes it
 * (one dilation, then one erosion), splits it into connected clusters, and
 * saves each cluster as `<subject>_Lesion_<nn>.nii.gz` in the reader's folder,
 * numbering the lesions 1, 2, … across all labels.
 *
 * A volume is the sequence of its voxel values. The morphology operators and
 * the connected-component labelling are parameters (`Isolation`); the
 * labelling's guarantee is stated once as `LabelsForeground`. The reader
 * folder is a map from file name to saved mask.
 */
module LesionIsolation {
  import opened Wrappers
  import opened Strings
  import opened Collections
  import opened Readers

  type Volume = seq<int>

  /** What `scipy.ndimage.label` returns: a cluster id per voxel and the number of clusters. */
  datatype Clusters = Clusters(ids: seq<int>, count: nat)

  /** The image operations `process_mask` calls, and whether smoothing is on. */
  datatype Isolation = Isolation(
    smooth: bool,
    dilate: Volume -> Volume,
    erode: Volume -> Volume,
    components: Volume -> Clusters)

  /** One saved lesion file: its name in the reader folder and its binary mask. */
  datatype LesionFile = LesionFile(name: string, mask: Volume)

  /** The part of what connected-component labelling promises that the model relies on: ids 1..count on the foreground, 0 elsewhere. */
  predicate LabelsForeground(m: Volume, c: Clusters) {
    && |c.ids| == |m|
    && forall k :: 0 <= k < |m| ==>
        if m[k] != 0 then 1 <= c.ids[k] <= c.count else c.ids[k] == 0
  }

  // ---------------------------------------------------------------------------
  // The pieces of process_mask
  // ---------------------------------------------------------------------------

  /** `np.unique(mask_data)[1:]`: the distinct values in increasing order, smallest dropped. */
  function Labels(mask: Volume): seq<int> {
    var u := UniqueSorted(mask);
    if u == [] then [] else u[1..]
  }

  /** `(mask_data == label_id).astype(int)`. */
  function LabelMask(mask: Volume, l: int): (b: Volume)
    ensures |b| == |mask|
  {
    seq(|mask|, k requires 0 <= k < |mask| => if mask[k] == l then 1 else 0)
  }

  /** The mask handed to the labelling: closed when smoothing is on, unchanged otherwise. */
  function Prepared(m: Volume, ops: Isolation): Volume {
    if ops.smooth then ops.erode(ops.dilate(m)) else m
  }

  /** `(clusters == cluster_id).astype(int)`. */
  function ClusterMask(c: Clusters, id: int): (b: Volume)
    ensures |b| == |c.ids|
  {
    seq(|c.ids|, k requires 0 <= k < |c.ids| => if c.ids[k] == id then 1 else 0)
  }

  /** `f"{subject_id}_Lesion_{lesion_count:02d}.nii.gz"`. */
  function LesionFileName(subjectId: string, n: nat): string {
    subjectId + "_Lesion_" + PadNum(n, 2) + ".nii.gz"
  }

  /** The files saved for the clusters of one label, numbered from `next`. */
  function ClusterFiles(subjectId: string, c: Clusters, next: nat): (fs: seq<LesionFile>)
    ensures |fs| == c.count
  {
    seq(c.count, t requires 0 <= t < c.count => LesionFile(LesionFileName(subjectId, next + t), ClusterMask(c, t + 1)))
  }

  /** The clusters of label `l`. */
  function LabelClusters(mask: Volume, l: int, ops: Isolation): Clusters {
    ops.components(Prepared(LabelMask(mask, l), ops))
  }

  /** The files saved for the first `n` labels, in order. */
  function Isolated(subjectId: string, mask: Volume, labels: seq<int>, ops: Isolation, n: nat): seq<LesionFile>
    requires n <= |labels|
  {
    if n == 0 then []
    else
      var prev := Isolated(subjectId, mask, labels, ops, n - 1);
      prev + ClusterFiles(subjectId, LabelClusters(mask, labels[n - 1], ops), |prev| + 1)
  }

  lemma IsolatedStep(subjectId: string, mask: Volume, labels: seq<int>, ops: Isolation, n: nat)
    requires n < |labels|
    ensures Isolated(subjectId, mask, labels, ops, n + 1)
      == Isolated(subjectId, mask, labels, ops, n)
      + ClusterFiles(subjectId, LabelClusters(mask, labels[n], ops), |Isolated(subjectId, mask, labels, ops, n)| + 1)
  {
  }

  /** All the files `process_mask` saves for `mask`. */
  function IsolatedAll(subjectDir: string, mask: Volume, ops: Isolation): seq<LesionFile> {
    Isolated(Basename(subjectDir), mask, Labels(mask), ops, |Labels(mask)|)
  }

  /** The reader folder before any lesion is saved: emptied by `overwrite`, created when missing. */
  function StartFolder(folder: Option<map<string, Volume>>, overwrite: bool): map<string, Volume> {
    if folder.Some? && !overwrite then folder.value else map[]
  }

  /** The folder after saving `files` in order (a later file of the same name replaces an earlier one). */
  function Saved(start: map<string, Volume>, files: seq<LesionFile>): map<string, Volume> {
    if files == [] then start
    else Saved(start, files[..|files| - 1])[files[|files| - 1].name := files[|files| - 1].mask]
  }

  /**
   * The inner loop of `process_mask`: saves the clusters of one label,
   * numbering them from `lesionCount`.
   */
  method SaveClusters(subjectId: string, clusters: Clusters, lesionCount: nat, written: seq<LesionFile>)
    returns (written': seq<LesionFile>, lesionCount': nat)
    requires lesionCount == |written| + 1
    ensures written' == written + ClusterFiles(subjectId, clusters, lesionCount)
    ensures lesionCount' == |written'| + 1
  {
    ghost var files := ClusterFiles(subjectId, clusters, lesionCount);
    written', lesionCount' := written, lesionCount;
    for id := 1 to clusters.count + 1
      invariant written' == written + files[..id - 1]
      invariant lesionCount' == |written'| + 1
    {
      var clusterMask := ClusterMask(clusters, id);
      var name := LesionFileName(subjectId, lesionCount');
      assert files[..id] == files[..id - 1] + [LesionFile(name, clusterMask)];
      written' := written' + [LesionFile(name, clusterMask)];
      lesionCount' := lesionCount' + 1;
    }
    assert files[..clusters.count] == files;
  }

  /** Lines 42-45 of `process_mask`: the closing applied when smoothing is on. */
  method Smooth(m: Volume, ops: Isolation) returns (temp: Volume)
    ensures temp == Prepared(m, ops)
  {
    temp := m;
    if ops.smooth {
      temp := ops.dilate(temp);
      temp := ops.erode(temp);
    }
  }

  /**
   * `process_mask`: returns the lesion files it saves, in order. What they do
   * to the reader folder is `Saved(StartFolder(folder, overwrite), written)`.
   */
  method ProcessMask(subjectDir: string, mask: Volume, ops: Isolation) returns (written: seq<LesionFile>)
    ensures written == IsolatedAll(subjectDir, mask, ops)
  {
    var subjectId := Basename(subjectDir);
    var labels := Labels(mask);
    written := [];
    var lesionCount := 1;
    for i := 0 to |labels|
      invariant written == Isolated(subjectId, mask, labels, ops, i)
      invariant lesionCount == |written| + 1
    {
      var temp := LabelMask(mask, labels[i]);
      temp := Smooth(temp, ops);
      var clusters := ops.components(temp);
      IsolatedStep(subjectId, mask, labels, ops, i);
      written, lesionCount := SaveClusters(subjectId, clusters, lesionCount, written);
    }
  }

  // ---------------------------------------------------------------------------
  // The task list of the command-line entry point
  // ---------------------------------------------------------------------------

  /** One call of `process_mask` to make. */
  datatype MaskTask = MaskTask(maskPath: string, subjectDir: string, reader: string, overwrite: bool, smooth: bool)

  /** The folders of `base` named `sub-…`, in listing order. */
  function SubjectDirs(base: string, names: seq<string>, isDir: string -> bool): (dirs: seq<string>)
    ensures |dirs| <= |names|
  {
    if names == [] then []
    else
      var d := names[|names| - 1];
      SubjectDirs(base, names[..|names| - 1], isDir)
        + if isDir(PathJoin(base, d)) && StartsWith(d, "sub-") then [PathJoin(base, d)] else []
  }

  /** `<subject_dir>/<reader>_mask.nii.gz`. */
  function MaskPath(subjectDir: string, reader: string): string {
    PathJoin(subjectDir, reader + "_mask.nii.gz")
  }

  /** The tasks of one subject folder for the readers `rs`, in order. */
  function ReaderTasks(dir: string, rs: seq<string>, exists_: string -> bool, overwrite: bool, smooth: bool): seq<MaskTask> {
    if rs == [] then []
    else
      var r := rs[|rs| - 1];
      ReaderTasks(dir, rs[..|rs| - 1], exists_, overwrite, smooth)
        + if exists_(MaskPath(dir, r)) then [MaskTask(MaskPath(dir, r), dir, r, overwrite, smooth)] else []
  }

  /** The tasks of the first `n` subject folders. */
  function Tasks(dirs: seq<string>, n: nat, exists_: string -> bool, overwrite: bool, smooth: bool): seq<MaskTask>
    requires n <= |dirs|
  {
    if n == 0 then []
    else Tasks(dirs, n - 1, exists_, overwrite, smooth) + ReaderTasks(dirs[n - 1], READERS, exists_, overwrite, smooth)
  }

  /** The `mask_tasks` list the entry point builds before handing it to the worker pool. */
  method MaskTasks(base: string, names: seq<string>, isDir: string -> bool, exists_: string -> bool, overwrite: bool, smooth: bool)
    returns (tasks: seq<MaskTask>)
    ensures tasks == Tasks(SubjectDirs(base, names, isDir), |SubjectDirs(base, names, isDir)|, exists_, overwrite, smooth)
  {
    var dirs := SubjectDirs(base, names, isDir);
    tasks := [];
    for i := 0 to |dirs|
      invariant tasks == Tasks(dirs, i, exists_, overwrite, smooth)
    {
      tasks := AddSubjectTasks(dirs[i], exists_, overwrite, smooth, tasks);
    }
  }

  /** The inner loop over the readers of one subject folder: a task per existing mask. */
  method AddSubjectTasks(dir: string, exists_: string -> bool, overwrite: bool, smooth: bool, tasks0: seq<MaskTask>)
    returns (tasks: seq<MaskTask>)
    ensures tasks == tasks0 + ReaderTasks(dir, READERS, exists_, overwrite, smooth)
  {
    tasks := tasks0;
    for r := 0 to |READERS|
      invariant tasks == tasks0 + ReaderTasks(dir, READERS[..r], exists_, overwrite, smooth)
    {
      var maskPath := MaskPath(dir, READERS[r]);
      assert READERS[..r + 1][..r] == READERS[..r];
      if exists_(maskPath) {
        tasks := tasks + [MaskTask(maskPath, dir, READERS[r], overwrite, smooth)];
      }
    }
    assert READERS[..|READERS|] == READERS;
  }
}
