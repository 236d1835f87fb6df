/**
 * What `process_mask` and the task list of scripts/Isolate_lesions.py
 * guarantee: which label values become lesions, how the lesion files are
 * numbered and named, what the reader folder holds afterwards, that every
 * lesion voxel lands in exactly one file, and which mask files get a task.
 */
module IsolationProperties {
  import opened Wrappers
  import opened Readers
  import opened Strings
  import opened Collections
  import opened LesionIsolation

  // ---------------------------------------------------------------------------
  // Labels
  // ---------------------------------------------------------------------------

  /**
   * The labels are increasing and are exactly the values of the mask that
   * some voxel undercuts: every value except the smallest, which is taken as
   * the background whatever it is.
   */
  lemma LabelsAreNonBackgroundValues(mask: Volume)
    ensures StrictlySortedBy(Labels(mask), IntLess())
    ensures forall l :: l in Labels(mask) <==> l in mask && exists k :: 0 <= k < |mask| && mask[k] < l
  {
    var u := UniqueSorted(mask);
    forall l | l in Labels(mask) ensures l in mask && exists k :: 0 <= k < |mask| && mask[k] < l {
      LabelAboveBackground(mask, l);
    }
    forall l | l in mask && exists k :: 0 <= k < |mask| && mask[k] < l ensures l in Labels(mask) {
      var k :| 0 <= k < |mask| && mask[k] < l;
      AboveBackgroundIsLabel(mask, l, k);
    }
  }

  lemma LabelAboveBackground(mask: Volume, l: int)
    requires l in Labels(mask)
    ensures l in mask && exists k :: 0 <= k < |mask| && mask[k] < l
  {
    var u := UniqueSorted(mask);
    var j :| 1 <= j < |u| && u[j] == l;
    assert u[0] in mask;
    var k :| 0 <= k < |mask| && mask[k] == u[0];
    assert IntLess()(u[0], u[j]);
  }

  lemma AboveBackgroundIsLabel(mask: Volume, l: int, k: nat)
    requires l in mask && k < |mask| && mask[k] < l
    ensures l in Labels(mask)
  {
    var u := UniqueSorted(mask);
    assert l in u && mask[k] in u;
    var j :| 0 <= j < |u| && u[j] == l;
    var i :| 0 <= i < |u| && u[i] == mask[k];
    assert i < j by {
      if j <= i {
        assert false;
      }
    }
    assert u[1..][j - 1] == l;
  }

  /** A mask with a single value has no labels, so `process_mask` saves nothing. */
  lemma UniformMaskHasNoLesions(subjectDir: string, mask: Volume, ops: Isolation)
    requires forall k :: 0 <= k < |mask| ==> mask[k] == mask[0]
    ensures IsolatedAll(subjectDir, mask, ops) == []
  {
    LabelsAreNonBackgroundValues(mask);
    if Labels(mask) != [] {
      assert false;
    }
  }

  // ---------------------------------------------------------------------------
  // Numbering and names of the lesion files
  // ---------------------------------------------------------------------------

  /** The `t`-th file saved is lesion number `t + 1`: the counter runs on across labels. */
  lemma {:induction false} IsolatedNumbering(subjectId: string, mask: Volume, labels: seq<int>, ops: Isolation, n: nat)
    requires n <= |labels|
    ensures forall t :: 0 <= t < |Isolated(subjectId, mask, labels, ops, n)| ==>
      Isolated(subjectId, mask, labels, ops, n)[t].name == LesionFileName(subjectId, t + 1)
  {
    if n > 0 {
      IsolatedNumbering(subjectId, mask, labels, ops, n - 1);
    }
  }

  /** Different lesion numbers give different file names. */
  lemma LesionFileNameInjective(subjectId: string, a: nat, b: nat)
    requires LesionFileName(subjectId, a) == LesionFileName(subjectId, b)
    ensures a == b
  {
    var pre := subjectId + "_Lesion_";
    var name := LesionFileName(subjectId, a);
    assert |PadNum(a, 2)| == |PadNum(b, 2)|;
    assert name[|pre|..|pre| + |PadNum(a, 2)|] == PadNum(a, 2);
    assert LesionFileName(subjectId, b)[|pre|..|pre| + |PadNum(b, 2)|] == PadNum(b, 2);
    PadNumInjective(a, b, 2);
  }

  predicate DistinctNames(files: seq<LesionFile>) {
    forall t, u :: 0 <= t < u < |files| ==> files[t].name != files[u].name
  }

  /**
   * The files saved for one mask are `<subject>_Lesion_01.nii.gz`, `…_02…`, …
   * in order, so no save overwrites an earlier one.
   */
  lemma LesionFilesNumbered(subjectDir: string, mask: Volume, ops: Isolation)
    ensures forall t :: 0 <= t < |IsolatedAll(subjectDir, mask, ops)| ==>
      IsolatedAll(subjectDir, mask, ops)[t].name == LesionFileName(Basename(subjectDir), t + 1)
    ensures DistinctNames(IsolatedAll(subjectDir, mask, ops))
  {
    IsolatedNumbering(Basename(subjectDir), mask, Labels(mask), ops, |Labels(mask)|);
    NumberedNamesDistinct(Basename(subjectDir), IsolatedAll(subjectDir, mask, ops));
  }

  lemma NumberedNamesDistinct(subjectId: string, files: seq<LesionFile>)
    requires forall t :: 0 <= t < |files| ==> files[t].name == LesionFileName(subjectId, t + 1)
    ensures DistinctNames(files)
  {
    forall t, u | 0 <= t < u < |files| ensures files[t].name != files[u].name {
      if files[t].name == files[u].name {
        LesionFileNameInjective(subjectId, t + 1, u + 1);
      }
    }
  }

  /**
   * Saved under `subject_dir/reader`, a lesion file's path ends in its name,
   * which starts with the subject id, the last component of `subject_dir`.
   */
  lemma LesionPathEndsInName(subjectDir: string, reader: string, n: nat)
    ensures var name := LesionFileName(Basename(subjectDir), n);
      Basename(PathJoin(PathJoin(subjectDir, reader), name)) == name
  {
    var id := Basename(subjectDir);
    JoinSplit(subjectDir, '/');
    assert '/' !in id;
    var name := LesionFileName(id, n);
    assert '/' !in name by {
      PadNumRoundTrip(n, 2);
      assert forall c :: c in PadNum(n, 2) ==> IsDigit(c);
    }
    BasenameOfJoin(PathJoin(subjectDir, reader), name);
  }

  // ---------------------------------------------------------------------------
  // The reader folder afterwards
  // ---------------------------------------------------------------------------

  /**
   * Saving files with distinct names: each file holds its mask, the folder
   * holds the old files and the new ones, and an old file whose name is not
   * reused keeps its content.
   */
  lemma {:induction false} SavedContents(start: map<string, Volume>, files: seq<LesionFile>)
    requires DistinctNames(files)
    ensures forall t :: 0 <= t < |files| ==> files[t].name in Saved(start, files) && Saved(start, files)[files[t].name] == files[t].mask
    ensures forall n :: n in Saved(start, files) <==> n in start || exists t :: 0 <= t < |files| && files[t].name == n
    ensures forall n :: n in start && (forall t :: 0 <= t < |files| ==> files[t].name != n) ==> Saved(start, files)[n] == start[n]
  {
    if files != [] {
      var init := files[..|files| - 1];
      assert forall t :: 0 <= t < |init| ==> init[t] == files[t];
      SavedContents(start, init);
    }
  }

  /**
   * With `overwrite`, or when the folder did not exist, the reader folder ends
   * up holding exactly the new lesion files. Without `overwrite`, files of an
   * earlier run that the new numbering does not reach stay in the folder
   * unchanged.
   */
  lemma ReaderFolderAfter(subjectDir: string, mask: Volume, ops: Isolation, folder: Option<map<string, Volume>>, overwrite: bool)
    ensures var files := IsolatedAll(subjectDir, mask, ops);
      var after := Saved(StartFolder(folder, overwrite), files);
      && (forall t :: 0 <= t < |files| ==> files[t].name in after && after[files[t].name] == files[t].mask)
      && (folder.None? || overwrite ==> forall n :: n in after <==> exists t :: 0 <= t < |files| && files[t].name == n)
      && (folder.Some? && !overwrite ==>
            forall n :: n in folder.value && (forall t :: 0 <= t < |files| ==> files[t].name != n) ==> n in after && after[n] == folder.value[n])
  {
    LesionFilesNumbered(subjectDir, mask, ops);
    SavedContents(StartFolder(folder, overwrite), IsolatedAll(subjectDir, mask, ops));
  }

  /** A per-label mask is 1 exactly on that label's voxels, so the masks of two labels never overlap. */
  lemma LabelMasksDisjoint(mask: Volume, l1: int, l2: int, k: nat)
    requires k < |mask|
    ensures LabelMask(mask, l1)[k] == 1 <==> mask[k] == l1
    ensures l1 != l2 ==> LabelMask(mask, l1)[k] == 0 || LabelMask(mask, l2)[k] == 0
  {
  }

  /** A cluster mask is 1 exactly where the cluster id matches, so two clusters never overlap. */
  lemma ClusterMasksDisjoint(c: Clusters, a: int, b: int, k: nat)
    requires k < |c.ids|
    ensures ClusterMask(c, a)[k] == 1 <==> c.ids[k] == a
    ensures a != b ==> ClusterMask(c, a)[k] == 0 || ClusterMask(c, b)[k] == 0
  {
  }

  // ---------------------------------------------------------------------------
  // Every lesion voxel lands in exactly one file
  // ---------------------------------------------------------------------------

  /** The files whose mask covers voxel `k`. */
  function InVoxel(k: nat): LesionFile -> bool {
    (f: LesionFile) => k < |f.mask| && f.mask[k] == 1
  }

  lemma ClusterFilesCountStep(subjectId: string, c: Clusters, next: nat, k: nat, n: nat)
    requires n < c.count
    requires Count(ClusterFiles(subjectId, c, next)[..n], InVoxel(k)) == if k < |c.ids| && 1 <= c.ids[k] <= n then 1 else 0
    ensures Count(ClusterFiles(subjectId, c, next)[..n + 1], InVoxel(k)) == if k < |c.ids| && 1 <= c.ids[k] <= n + 1 then 1 else 0
  {
    var fs := ClusterFiles(subjectId, c, next);
    assert fs[..n + 1] == fs[..n] + [fs[n]];
    CountAppend(fs[..n], [fs[n]], InVoxel(k));
    CountSingleton(fs[n], InVoxel(k));
  }

  /** Voxel `k` is in the file of cluster `c.ids[k]` and in no other file of that label. */
  lemma ClusterFilesCount(subjectId: string, c: Clusters, next: nat, k: nat)
    ensures Count(ClusterFiles(subjectId, c, next), InVoxel(k)) == if k < |c.ids| && 1 <= c.ids[k] <= c.count then 1 else 0
  {
    var fs := ClusterFiles(subjectId, c, next);
    var n := 0;
    while n < c.count
      invariant n <= c.count
      invariant Count(fs[..n], InVoxel(k)) == if k < |c.ids| && 1 <= c.ids[k] <= n then 1 else 0
    {
      ClusterFilesCountStep(subjectId, c, next, k, n);
      n := n + 1;
    }
    assert fs[..c.count] == fs;
  }

  /** The labels whose (prepared) binary mask covers voxel `k`. */
  function CoveredBy(mask: Volume, ops: Isolation, k: nat): int -> bool {
    (l: int) => k < |Prepared(LabelMask(mask, l), ops)| && Prepared(LabelMask(mask, l), ops)[k] != 0
  }

  /**
   * With a labelling that keeps its promise, the files of the first `n`
   * labels cover voxel `k` once for every one of those labels whose prepared
   * mask covers it.
   */
  lemma {:induction false} IsolatedCount(subjectId: string, mask: Volume, labels: seq<int>, ops: Isolation, n: nat, k: nat)
    requires n <= |labels|
    requires forall m :: LabelsForeground(m, ops.components(m))
    ensures Count(Isolated(subjectId, mask, labels, ops, n), InVoxel(k)) == Count(labels[..n], CoveredBy(mask, ops, k))
  {
    if n > 0 {
      IsolatedCount(subjectId, mask, labels, ops, n - 1, k);
      IsolatedCountStep(subjectId, mask, labels, ops, n - 1, k);
    }
  }

  lemma IsolatedCountStep(subjectId: string, mask: Volume, labels: seq<int>, ops: Isolation, n: nat, k: nat)
    requires n < |labels|
    requires forall m :: LabelsForeground(m, ops.components(m))
    requires Count(Isolated(subjectId, mask, labels, ops, n), InVoxel(k)) == Count(labels[..n], CoveredBy(mask, ops, k))
    ensures Count(Isolated(subjectId, mask, labels, ops, n + 1), InVoxel(k)) == Count(labels[..n + 1], CoveredBy(mask, ops, k))
  {
    var prev := Isolated(subjectId, mask, labels, ops, n);
    var files := ClusterFiles(subjectId, LabelClusters(mask, labels[n], ops), |prev| + 1);
    assert LabelsForeground(Prepared(LabelMask(mask, labels[n]), ops), LabelClusters(mask, labels[n], ops));
    LabelFilesCount(subjectId, mask, labels[n], ops, |prev| + 1, k);
    IsolatedStep(subjectId, mask, labels, ops, n);
    CountsPrefixAlike(Isolated(subjectId, mask, labels, ops, n + 1), prev, files, labels, n, InVoxel(k), CoveredBy(mask, ops, k));
  }

  /** Counting over a sequence built from `prev` and `files`, part by part alike with the prefixes of `ls`. */
  lemma CountsPrefixAlike<T, U>(whole: seq<T>, prev: seq<T>, files: seq<T>, ls: seq<U>, n: nat, p: T -> bool, q: U -> bool)
    requires n < |ls| && whole == prev + files
    requires Count(prev, p) == Count(ls[..n], q)
    requires Count(files, p) == if q(ls[n]) then 1 else 0
    ensures Count(whole, p) == Count(ls[..n + 1], q)
  {
    assert ls[..n + 1] == ls[..n] + [ls[n]];
    CountsAppendAlike(prev, files, ls[..n], ls[n], p, q);
  }

  /** Counting over two concatenations that match part by part. */
  lemma CountsAppendAlike<T, U>(a: seq<T>, b: seq<T>, c: seq<U>, x: U, p: T -> bool, q: U -> bool)
    requires Count(a, p) == Count(c, q)
    requires Count(b, p) == if q(x) then 1 else 0
    ensures Count(a + b, p) == Count(c + [x], q)
  {
    CountAppend(a, b, p);
    CountAppend(c, [x], q);
    CountSingleton(x, q);
  }

  /** The files of label `l` cover voxel `k` once when the label's prepared mask covers it, else never. */
  lemma LabelFilesCount(subjectId: string, mask: Volume, l: int, ops: Isolation, next: nat, k: nat)
    requires LabelsForeground(Prepared(LabelMask(mask, l), ops), LabelClusters(mask, l, ops))
    ensures Count(ClusterFiles(subjectId, LabelClusters(mask, l, ops), next), InVoxel(k)) == if CoveredBy(mask, ops, k)(l) then 1 else 0
  {
    ClusterFilesCount(subjectId, LabelClusters(mask, l, ops), next, k);
  }

  function Equals(v: int): int -> bool {
    (l: int) => l == v
  }

  /** In an increasing sequence a value occurs at most once. */
  lemma {:induction false} CountInStrictlySorted(s: seq<int>, v: int)
    requires StrictlySortedBy(s, IntLess())
    ensures Count(s, Equals(v)) == if v in s then 1 else 0
  {
    if s != [] {
      var init := s[..|s| - 1];
      assert StrictlySortedBy(init, IntLess());
      CountInStrictlySorted(init, v);
      assert s == init + [s[|s| - 1]];
      if v == s[|s| - 1] {
        assert v !in init by {
          forall t | 0 <= t < |init| ensures init[t] != v {
            assert IntLess()(s[t], s[|s| - 1]);
          }
        }
      }
    }
  }

  /**
   * Without smoothing, every voxel whose value is a label is in exactly one
   * lesion file, and every background voxel is in none.
   */
  lemma VoxelInOneLesion(subjectDir: string, mask: Volume, ops: Isolation, k: nat)
    requires !ops.smooth && k < |mask|
    requires forall m :: LabelsForeground(m, ops.components(m))
    ensures Count(IsolatedAll(subjectDir, mask, ops), InVoxel(k)) == if mask[k] in Labels(mask) then 1 else 0
  {
    var labels := Labels(mask);
    IsolatedCount(Basename(subjectDir), mask, labels, ops, |labels|, k);
    assert labels[..|labels|] == labels;
    CountCorresponds(labels, labels, CoveredBy(mask, ops, k), Equals(mask[k]));
    LabelsAreNonBackgroundValues(mask);
    CountInStrictlySorted(labels, mask[k]);
  }

  // ---------------------------------------------------------------------------
  // The task list
  // ---------------------------------------------------------------------------

  /** The subject folders are the listed entries that are folders named `sub-…`. */
  lemma SubjectDirsMembers(base: string, names: seq<string>, isDir: string -> bool)
    ensures forall d :: d in SubjectDirs(base, names, isDir) <==>
      exists i :: 0 <= i < |names| && d == PathJoin(base, names[i]) && isDir(d) && StartsWith(names[i], "sub-")
  {
    forall d | d in SubjectDirs(base, names, isDir)
      ensures exists i :: 0 <= i < |names| && d == PathJoin(base, names[i]) && isDir(d) && StartsWith(names[i], "sub-")
    {
      var i := SubjectDirIndex(base, names, isDir, d);
    }
    forall d, i | 0 <= i < |names| && d == PathJoin(base, names[i]) && isDir(d) && StartsWith(names[i], "sub-")
      ensures d in SubjectDirs(base, names, isDir)
    {
      SubjectDirListed(base, names, isDir, i);
    }
  }

  /** Every subject folder comes from a listed entry that is a folder named `sub-…`. */
  lemma {:induction false} SubjectDirIndex(base: string, names: seq<string>, isDir: string -> bool, d: string) returns (i: nat)
    requires d in SubjectDirs(base, names, isDir)
    ensures i < |names| && d == PathJoin(base, names[i]) && isDir(d) && StartsWith(names[i], "sub-")
  {
    var init := names[..|names| - 1];
    if d in SubjectDirs(base, init, isDir) {
      i := SubjectDirIndex(base, init, isDir, d);
      assert init[i] == names[i];
    } else {
      i := |names| - 1;
    }
  }

  /** Every listed entry that is a folder named `sub-…` is a subject folder. */
  lemma {:induction false} SubjectDirListed(base: string, names: seq<string>, isDir: string -> bool, i: nat)
    requires i < |names| && isDir(PathJoin(base, names[i])) && StartsWith(names[i], "sub-")
    ensures PathJoin(base, names[i]) in SubjectDirs(base, names, isDir)
  {
    var init := names[..|names| - 1];
    if i < |init| {
      SubjectDirListed(base, init, isDir, i);
      assert init[i] == names[i];
    }
  }

  lemma {:induction false} ReaderTasksMembers(dir: string, rs: seq<string>, exists_: string -> bool, overwrite: bool, smooth: bool)
    ensures forall t :: t in ReaderTasks(dir, rs, exists_, overwrite, smooth) <==>
      t.subjectDir == dir && t.reader in rs && t.maskPath == MaskPath(dir, t.reader) && exists_(t.maskPath)
      && t.overwrite == overwrite && t.smooth == smooth
  {
    if rs != [] {
      ReaderTasksMembers(dir, rs[..|rs| - 1], exists_, overwrite, smooth);
      assert rs == rs[..|rs| - 1] + [rs[|rs| - 1]];
    }
  }

  /**
   * A task is queued exactly for each subject folder and reader whose
   * `<reader>_mask.nii.gz` exists, carrying the command-line flags.
   */
  lemma {:induction false} TasksMembers(dirs: seq<string>, n: nat, exists_: string -> bool, overwrite: bool, smooth: bool)
    requires n <= |dirs|
    ensures forall t :: t in Tasks(dirs, n, exists_, overwrite, smooth) <==>
      t.subjectDir in dirs[..n] && t.reader in READERS && t.maskPath == MaskPath(t.subjectDir, t.reader) && exists_(t.maskPath)
      && t.overwrite == overwrite && t.smooth == smooth
  {
    if n > 0 {
      TasksMembers(dirs, n - 1, exists_, overwrite, smooth);
      ReaderTasksMembers(dirs[n - 1], READERS, exists_, overwrite, smooth);
      assert dirs[..n] == dirs[..n - 1] + [dirs[n - 1]];
    }
  }
}
