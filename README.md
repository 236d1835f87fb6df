# Lesion viewer: a Dafny model of its pipeline

The Lesion-viewer app lets two readers review MRI lesion segmentations side
by side. Its pipeline has three stages, and two viewers read what it writes:

- **Lesion isolation.** `process_mask` in scripts/Isolate_lesions.py splits
  each reader's mask into one file per connected lesion, named
  `<subject>_Lesion_NN.nii.gz`.
- **Lesion matching.** `process_subject` and `match_lesions` in
  scripts/match_lesions.py pair each reader-1 lesion with the overlapping
  reader-2 lesions that no earlier reader-1 lesion has claimed. Each subject contributes rows
  `(Lesion ID, Underlay, Reader_1, Reader_2)` to one table.
- **Slice rendering.** `read_lesion_matches`, `get_center_and_margin`,
  `crop_image`, `save_slices_as_jpeg`, `process_single_lesion` and
  `process_lesions` render every slice of every lesion in the table. The
  current renderer is scripts/image_processing.py and the older one is
  image_processing.py. Each slice becomes `<Lesion ID>_<slice:03d>.jpg`.
- **Viewers.** scripts/generate_static_html.py turns the slice listing into
  per-subject pages. The Flask apps scripts/app.py and app.py list subjects
  and lesions from the same listing. They also save annotations into a table
  keyed by (lesion_id, subject_id).

The model works on values the scripts read or compute:

- Voxel volumes are flat sequences for matching and isolation, and nested
  `seq<seq<seq<int>>>` grids for cropping.
- Paths and file names are strings. Tables are sequences of records.
- The file system is a parameter: which paths exist and what loading one
  gives. Directory listings are inputs, in listing order.
- Connected-component labelling is a function parameter with its contract:
  cluster ids 1..count on the foreground and 0 elsewhere.
- Binary dilation/erosion and the overlap test between two lesion files are
  function parameters without a contract.

Each imperative loop of the source is a `method` with a `while`/`for` loop.
The loop is proved equal to a specification function, and the lemmas beside
it state what the source promises.

Modules:

- `Strings`: Python's `split`/`join`, zero padding, string order.
- `Collections`: `unique`, `sorted`, counting, dicts built from pairs.
- `LesionMatching` and `MatchProperties`; `OutcomeProperties` for the
  errors and reader names.
- `LesionIsolation` and `IsolationProperties`.
- `Volumes`, `CropGeometry` and `CropProperties`.
- `LesionTable`, `SliceRendering` and `SliceProperties`.
- `SliceListing`: grouping a listing by key.
- `StaticHtml` and `HtmlProperties`.
- `AnnotationApp` and `AppProperties`.

## Model

| member | source | states |
|---|---|---|
| LesionMatching.CompareLesions | scripts/match_lesions.py:12-14 | two lesions overlap exactly when some voxel of their sum exceeds 1 |
| LesionMatching.CompareLesionsSymmetric | scripts/match_lesions.py:12-14 | the overlap test gives the same answer whichever lesion comes first |
| LesionMatching.CompareBinaryMasks | scripts/match_lesions.py:12-14 | on 0/1 masks, two lesions overlap exactly when some voxel is 1 in both |
| LesionMatching.ScanReader2 | scripts/match_lesions.py:70-79 | the inner loop collects, in order, every unused reader-2 lesion whose first overlapping reader-1 lesion is the current one, and marks exactly those used |
| LesionMatching.MatchReader1Lesions | scripts/match_lesions.py:63-88 | the outer loop produces the rows of every reader-1 lesion in order; afterwards the used set is exactly the reader-2 lesions some reader-1 lesion overlaps |
| LesionMatching.AppendBlock | scripts/match_lesions.py:81-86 | the rows written for one reader-1 lesion extend the table to the rows of the first i + 1 lesions: one per match, or one with an empty reader-2 path |
| LesionMatching.AppendMatches | scripts/match_lesions.py:82-84 | the write loop appends one row per claimed reader-2 lesion, in reader-2 order |
| LesionMatching.TakenAll | scripts/match_lesions.py:72-79 | after the reader-1 loop, a reader-2 lesion is marked used exactly when some reader-1 lesion overlaps it |
| LesionMatching.AppendLeftovers | scripts/match_lesions.py:90-95 | the last loop appends one row with an empty Reader_1 field for each unused reader-2 lesion, in order, with the next counters |
| LesionMatching.ProcessSubject | scripts/match_lesions.py:45-97 | `process_subject` returns the subject's rows and its two reader names, or fails exactly as the outcome function says (see OutcomeProperties) |
| LesionMatching.CollectFails | scripts/match_lesions.py:110-117 | a single subject that fails makes the collection of all subjects fail with that subject's error |
| LesionMatching.MatchLesions | scripts/match_lesions.py:99-125 | `match_lesions` takes every subject in order of first appearance, concatenates their rows and checks that exactly two reader names were collected |
| MatchProperties.BlockShape | scripts/match_lesions.py:81-86 | a reader-1 lesion gets one row with an empty Reader_2 field when it is nobody's first overlap; otherwise it gets one row per reader-2 lesion whose first overlap it is |
| MatchProperties.BlockMember | scripts/match_lesions.py:81-86 | gives exactly which reader-1/reader-2 pairs the rows of one reader-1 lesion describe |
| MatchProperties.LeftoversShape | scripts/match_lesions.py:90-95 | the leftover rows are the reader-2 lesions nobody overlaps, in order, with consecutive counters after the number of reader-1 lesions |
| MatchProperties.OriginsValid | scripts/match_lesions.py:68-95 | every row names existing reader-1/reader-2 lesions, so every row is built from real paths |
| MatchProperties.Reader2LesionOnce | scripts/match_lesions.py:72-79 | each reader-2 lesion is on exactly one row; that row is a leftover row exactly when no reader-1 lesion overlaps it |
| MatchProperties.PairedIffFirstOverlap | scripts/match_lesions.py:72-79 | a reader-1 and a reader-2 lesion share a row exactly when the reader-1 lesion is the first one that overlaps the reader-2 lesion |
| MatchProperties.Reader1LesionCovered | scripts/match_lesions.py:68 | every reader-1 lesion is on some row; that row has an empty Reader_2 field exactly when the lesion is nobody's first overlap |
| MatchProperties.Reader1PartCount | scripts/match_lesions.py:68-88 | among the reader-1 rows, a reader-2 lesion appears once if some reader-1 lesion overlaps it, and never otherwise |
| MatchProperties.Reader1PartAlone | scripts/match_lesions.py:82-86 | the reader-1 rows with an empty Reader_2 field are one per reader-1 lesion that claims no reader-2 lesion |
| MatchProperties.RowCount | scripts/match_lesions.py:68-95 | a subject gets one row per reader-1 lesion that claims no reader-2 lesion, plus one row per reader-2 lesion |
| MatchProperties.Reader1PartCounters | scripts/match_lesions.py:64 | the rows of the first n reader-1 lesions carry counters 1 to n; the counter starts at 1 and never skips |
| MatchProperties.CountersConsecutive | scripts/match_lesions.py:64 | counters start at 1, are shared by the rows of one reader-1 lesion, step by one to the next lesion or leftover, and end at the number of reader-1 lesions plus leftovers |
| MatchProperties.LesionIdInjective | scripts/match_lesions.py:81 | different counters give different `<subject>_<zfill(3)>` lesion ids |
| MatchProperties.SharedIdsOnlyWithinReader1Lesion | scripts/match_lesions.py:81 | two rows of a subject share a lesion id exactly when they are the same row or rows of the same reader-1 lesion |
| MatchProperties.OneReaderRows | scripts/match_lesions.py:57 | without reader-2 lesions, every reader-1 lesion gets one row of its own, numbered from 1 |
| MatchProperties.OneReaderSubject | scripts/match_lesions.py:50-52 | a subject whose lesions all come from one reader, even "Reader_2", gets one row per lesion with an empty Reader_2 field and "No_Reader" as second name |
| MatchProperties.Reader2RowOnce | scripts/match_lesions.py:72-79 | when the reader-2 files have distinct, non-empty paths, each is in the Reader_2 field of exactly one row |
| MatchProperties.Reader1RowExists | scripts/match_lesions.py:68 | every reader-1 lesion file is in the Reader_1 field of some row |
| OutcomeProperties.SubjectTableMembers | scripts/match_lesions.py:110 | one subject's table holds exactly that subject's entries, in table order |
| OutcomeProperties.OutcomeReaders | scripts/match_lesions.py:46-48 | `process_subject` fails exactly when the reader names cannot be chosen, and then with the same error |
| OutcomeProperties.SubjectReadersCases | scripts/match_lesions.py:46-54 | names cannot be chosen for more than two reader types, or for an empty table; otherwise reader 1 is the first type and reader 2 is "No_Reader" or the other type |
| OutcomeProperties.OneTypeReaders | scripts/match_lesions.py:50-52 | a table with one reader type names it first and "No_Reader" second |
| OutcomeProperties.ReaderFolderSubject | scripts/match_lesions.py:28-37 | with lesions from the reader folders only, a subject never fails and names no other reader |
| OutcomeProperties.BothReadersSubject | scripts/match_lesions.py:53-54 | a subject with lesions of both readers reports both names |
| OutcomeProperties.CollectedSubject | scripts/match_lesions.py:115-117 | when the subjects collect without error, each one succeeded and its reader names are among the collected names |
| OutcomeProperties.CollectAllOk | scripts/match_lesions.py:115-117 | when every subject succeeds with names from a set, the collection succeeds and collects only names from that set |
| OutcomeProperties.AnySubjectFailure | scripts/match_lesions.py:110 | a subject that fails makes `match_lesions` fail |
| OutcomeProperties.SubjectListed | scripts/match_lesions.py:101 | every subject of the table is visited and has a non-empty table |
| OutcomeProperties.OneReaderTable | scripts/match_lesions.py:50-52 | a one-reader subject names "No_Reader" as its second reader |
| OutcomeProperties.TwoReaderTable | scripts/match_lesions.py:53-54 | a two-reader subject names both readers |
| OutcomeProperties.MixedReadersRejected | scripts/match_lesions.py:119-120 | as written: a one-reader subject together with a two-reader subject collects three names, and `match_lesions` rejects the whole table |
| OutcomeProperties.IntendedAgrees | scripts/match_lesions.py:119-125 | the corrected name check accepts every table the original accepts, with the same rows |
| OutcomeProperties.IntendedAcceptsReaderFolders | scripts/match_lesions.py:115-125 | the corrected check accepts every non-empty table of reader-folder lesions, whatever the mix of one- and two-reader subjects, and fails only where a subject fails |
| LesionIsolation.LabelMask | scripts/Isolate_lesions.py:40 | the per-label mask has one voxel per mask voxel (its 0/1 meaning is in LabelMasksDisjoint) |
| LesionIsolation.ClusterMask | scripts/Isolate_lesions.py:51 | the cluster mask has one voxel per labelled voxel (its meaning is in ClusterMasksDisjoint) |
| LesionIsolation.ClusterFiles | scripts/Isolate_lesions.py:50-56 | one label yields one file per cluster |
| LesionIsolation.IsolatedStep | scripts/Isolate_lesions.py:39-56 | the files of one more label come after those of the earlier labels, numbered from one past their count |
| LesionIsolation.SaveClusters | scripts/Isolate_lesions.py:50-56 | the cluster loop appends the files of one label's clusters, numbered from the running counter, and the counter stays one past the number of files |
| LesionIsolation.Smooth | scripts/Isolate_lesions.py:42-45 | the mask passed to labelling is the closed mask when smoothing is on, and the unchanged mask otherwise |
| LesionIsolation.ProcessMask | scripts/Isolate_lesions.py:8-56 | `process_mask` saves exactly the files of every label's clusters, in label then cluster order |
| LesionIsolation.SubjectDirs | scripts/Isolate_lesions.py:119-120 | the subject folders are drawn from the listing (their membership is SubjectDirsMembers) |
| LesionIsolation.MaskTasks | scripts/Isolate_lesions.py:122-127 | the task loop builds the task list per subject folder and reader (its membership is TasksMembers) |
| LesionIsolation.AddSubjectTasks | scripts/Isolate_lesions.py:123-127 | the reader loop of one subject folder appends a task for each reader whose mask file exists, Reader_1 first |
| IsolationProperties.LabelsAreNonBackgroundValues | scripts/Isolate_lesions.py:36 | the labels increase and are exactly the mask's values except the smallest, which is taken as background |
| IsolationProperties.UniformMaskHasNoLesions | scripts/Isolate_lesions.py:36 | a mask with a single value has no labels, so no file is saved |
| IsolationProperties.IsolatedNumbering | scripts/Isolate_lesions.py:38-56 | the t-th file saved is lesion number t + 1; the counter runs on across labels |
| IsolationProperties.LesionFileNameInjective | scripts/Isolate_lesions.py:52 | different lesion numbers give different file names |
| IsolationProperties.LesionFilesNumbered | scripts/Isolate_lesions.py:52 | the files of one mask are named `<subject>_Lesion_01.nii.gz`, `_02`, … in order, so no save overwrites an earlier one |
| IsolationProperties.LesionPathEndsInName | scripts/Isolate_lesions.py:52-53 | for any `subject_dir`, the path of a lesion file under `subject_dir/reader` ends in its name, which is built from the subject id `basename(subject_dir)` |
| IsolationProperties.SavedContents | scripts/Isolate_lesions.py:54 | saving files with distinct names: each holds its mask, and an old file whose name is not reused keeps its content |
| IsolationProperties.ReaderFolderAfter | scripts/Isolate_lesions.py:23-31 | with overwrite, or a missing folder, the reader folder ends up holding exactly the new lesion files |
| IsolationProperties.LabelMasksDisjoint | scripts/Isolate_lesions.py:40 | a per-label mask is 1 exactly on that label's voxels, so two labels' masks never overlap |
| IsolationProperties.ClusterMasksDisjoint | scripts/Isolate_lesions.py:47-51 | a cluster mask is 1 exactly where the cluster id matches, so two clusters never overlap |
| IsolationProperties.ClusterFilesCount | scripts/Isolate_lesions.py:50-56 | a voxel is in the file of its own cluster and in no other file of that label |
| IsolationProperties.IsolatedCount | scripts/Isolate_lesions.py:39-56 | the files of the labels cover a voxel once for each label whose prepared mask covers it |
| IsolationProperties.VoxelInOneLesion | scripts/Isolate_lesions.py:36-56 | without smoothing, every voxel whose value is a label is in exactly one lesion file, and every background voxel is in none |
| IsolationProperties.SubjectDirsMembers | scripts/Isolate_lesions.py:119-120 | the subject folders are exactly the listed entries that are folders named `sub-…` |
| IsolationProperties.TasksMembers | scripts/Isolate_lesions.py:122-127 | a task is queued exactly for each subject folder and reader whose `<reader>_mask.nii.gz` exists, carrying the command-line flags |
| Volumes.NonzeroMembers | scripts/image_processing.py:72-80 | `np.nonzero` lists exactly the coordinates of the non-zero voxels |
| Volumes.CenterWithinForeground | scripts/image_processing.py:81 | the truncated mean of the coordinates lies between their smallest and largest value |
| Volumes.PySlice | scripts/image_processing.py:99-100 | `s[a:b]` with Python's negative and clamped indices |
| CropGeometry.CropPlane | scripts/image_processing.py:100 | an in-plane crop keeps the lines of the first span, each cut to the second span with Python's slicing |
| CropGeometry.CropImage | scripts/image_processing.py:99-100 | the crop's extent on each axis is the length Python's slicing gives for that axis's span |
| CropGeometry.CropCube | scripts/image_processing.py:99-100 | plane i of the cropped voxels is the in-plane crop of source plane lo0 + i, and there are as many planes as the first span selects |
| CropProperties.AllCoordsMembers | scripts/image_processing.py:72-80 | the pooled coordinates are exactly the foreground voxels of all masks |
| CropProperties.PooledCoordIsForeground | scripts/image_processing.py:72-80 | a pooled coordinate is a foreground voxel of one of the masks |
| CropProperties.ForegroundIsPooled | scripts/image_processing.py:72-80 | every foreground voxel of every mask is pooled |
| CropProperties.CenterAndMarginErrors | scripts/image_processing.py:77-91 | `get_center_and_margin` fails exactly when it gets no mask, or when no mask has a foreground voxel |
| CropProperties.CropWindowWithinShape | scripts/image_processing.py:81-97 | for masks of one shape and non-negative margins, the window lies inside the volume and the slice range is the third span |
| CropProperties.SliceRangeCoversForeground | scripts/image_processing.py:91-92 | every foreground voxel of every mask lies in the slice range |
| CropProperties.CropElements | scripts/image_processing.py:99-100 | the crop has extent hi - lo on each axis, and voxel (i, j, k) is source voxel (i + lo0, j + lo1, k + lo2); the older copy, image_processing.py:85-86, behaves alike |
| CropProperties.CropVoxel | scripts/image_processing.py:99-100 | one voxel of the crop is the source voxel shifted by the lower bounds |
| CropProperties.CropCubeAt | scripts/image_processing.py:99-100 | element [i][j][k] of the cropped voxels is element [i + lo0][j + lo1][k + lo2] of the source, for in-range spans |
| LesionTable.ReadLesionMatches | scripts/image_processing.py:34-57 | the row loop builds the match table, or fails on a missing column; the older copy, image_processing.py:26-49, behaves alike |
| LesionTable.MatchTableFails | scripts/image_processing.py:39-41 | reading fails exactly when 'Lesion ID' or 'Underlay' is missing |
| LesionTable.FoldedKeys | scripts/image_processing.py:43-50 | the keys are the distinct ids of the rows in order of first appearance, and exactly the keys of the dict |
| LesionTable.FoldedLastRowWins | scripts/image_processing.py:43-50 | an id has an entry exactly when a row carries it; the entry is built from the last such row |
| LesionTable.LastRowIsLast | scripts/image_processing.py:43-50 | `LastRow` finds a row exactly when some row carries the id, and no later row carries it |
| LesionTable.FoldedLastRow | scripts/image_processing.py:43-50 | after n rows an id has an entry exactly when `LastRow` finds one, and the entry is built from that row |
| LesionTable.MatchTableContents | scripts/image_processing.py:34-57 | a well-formed table gives one entry per distinct id, each built from its last row |
| SliceRendering.CombineMasks | scripts/image_processing.py:116-118 | the loop ORs every mask into the combined mask (voxel by voxel: CombinedAt) |
| SliceRendering.MaskedIntensities | scripts/image_processing.py:23 | the underlay values under the combined mask, one per non-zero voxel |
| SliceRendering.ChooseWindow | scripts/image_processing.py:115-121 | the current renderer computes the window from the combined mask; the older one has none |
| SliceRendering.DrawSlices | scripts/image_processing.py:123-162 | the slice loop draws one page per slice of the range, in order |
| SliceRendering.SaveSlices | scripts/image_processing.py:102-164 | `save_slices_as_jpeg` saves the pages of the range and returns hi - lo; the older copy, image_processing.py:88-137, behaves alike |
| SliceRendering.LoadReaderMasks | scripts/image_processing.py:179-192 | the reader loop builds `mask_images` (its contents are in LoadedMasksReaders) |
| SliceRendering.CropAll | scripts/image_processing.py:201 | every reader's mask is cropped with the same bounds, reader by reader |
| SliceRendering.CropAndSave | scripts/image_processing.py:198-204 | the crop window, the crops and the drawing of a lesion |
| SliceRendering.ProcessSingleLesion | scripts/image_processing.py:165-207 | `process_single_lesion` gives the lesion outcome (its cases are in LesionOutcomeNone and LesionOutcomeSome); the older copy, image_processing.py:140-184, is the `Legacy` variant, with the window taken from the first loaded mask |
| SliceRendering.TableKeysListed | scripts/image_processing.py:212-217 | every key of a table read without error is listed once in the table's key order |
| SliceRendering.ProcessNext | scripts/image_processing.py:217-223 | one more lesion of the table is processed and kept when it was rendered |
| SliceRendering.ProcessLesions | scripts/image_processing.py:209-223 | `process_lesions` keeps the (lesion, slice count) pair of every lesion that was rendered, in table order, or fails with the table; the older copy, image_processing.py:187-201, behaves alike |
| SliceProperties.CombinedAt | scripts/image_processing.py:116-118 | a combined-mask voxel is 1 where some mask is positive, and 0 elsewhere |
| SliceProperties.OptimalWindowAbsent | scripts/image_processing.py:23-25 | `calculate_optimal_window` gives `(None, None)` exactly when no mask has a positive voxel |
| SliceProperties.LoadedMasksReaders | scripts/image_processing.py:179-192 | `mask_images` holds a reader exactly when its path is given, exists and loads, with the loaded volume, in the order Reader_1, Reader_2 |
| SliceProperties.PanelShowsMask | scripts/image_processing.py:144-155 | a reader's panel is "No Data" exactly when it has no mask; otherwise the overlay is on exactly where its mask is positive on the slice |
| SliceProperties.SliceFileNameInjective | scripts/image_processing.py:160 | different slice numbers give different file names |
| SliceProperties.PageAt | scripts/image_processing.py:139-160 | page t of the range is saved under the name of slice lo + t and drawn from cropped slice t |
| SliceProperties.PagePathsDistinct | scripts/image_processing.py:160 | no two pages of one lesion are saved to the same file |
| SliceProperties.DrawnPages | scripts/image_processing.py:202-204 | drawing succeeds exactly when the cropped volumes can be drawn; it then reports hi - lo and saves one page per slice of the range |
| SliceProperties.NoMasksLoaded | scripts/image_processing.py:194-196 | the reader loop adds no mask exactly when it adds none for either reader |
| SliceProperties.LesionOutcomeNone | scripts/image_processing.py:169-196 | the lesion outcome is `None` for a NaN, missing or unloadable underlay, and when no reader mask loads; the older copy, image_processing.py:144-171, behaves alike |
| SliceProperties.CroppedCount | scripts/image_processing.py:198-204 | a crop that succeeds reports the lesion, hi - lo, and one page per slice of the range |
| SliceProperties.LesionOutcomeSome | scripts/image_processing.py:202-204 | a rendered lesion names itself and holds one page per slice of its range; its count is hi - lo |
| SliceProperties.OutcomeIsCropped | scripts/image_processing.py:198-204 | with an underlay and at least one mask that load, the outcome is the crop's |
| SliceProperties.CurrentWindow | scripts/image_processing.py:71-97 | on masks of one shape with a foreground voxel and a non-negative slice margin, the window exists and its slice range holds that voxel's slice |
| SliceProperties.CurrentRendersEveryForegroundSlice | scripts/image_processing.py:71-97 | when every mask has the underlay's shape and the slice margin is non-negative, a lesion with any foreground voxel is rendered, and every foreground slice of every reader gets its page; line 198 passes the window pooled over every mask to the crop |
| SliceProperties.LegacyMissesSecondReader | image_processing.py:173-175 | as written: Reader_1 on slice 0 and Reader_2 on slice 2 of a 1 x 1 x 3 volume render only slice 0 |
| SliceProperties.CurrentShowsSecondReader | scripts/image_processing.py:71-97 | the same two readers under the current renderer: Reader_2's slice gets its page |
| SliceListing.GroupedIds | scripts/app.py:88-93 | after grouping, the keys listed are the distinct present keys, in order of first appearance |
| SliceListing.GroupedFiles | scripts/app.py:88-93 | a key has a list exactly when some entry has that key, and the list is those entries in listing order |
| StaticHtml.SectionToDict | scripts/generate_static_html.py:11-13 | one section's dict is built from its items, the last value of a key winning |
| StaticHtml.ConfigToDict | scripts/generate_static_html.py:8-15 | `config_to_dict` builds the nested dict from the sections, in order |
| StaticHtml.GetSubjectList | scripts/generate_static_html.py:17-29 | a missing slices directory gives []; otherwise the distinct subjects of the ".jpg" entries, in increasing order |
| StaticHtml.AddSlice | scripts/generate_static_html.py:42-48 | adding one matching file changes only its lesion: the file is added, the slices re-sorted and the note set |
| StaticHtml.EntriesAdd | scripts/generate_static_html.py:42-48 | adding a file to the groups changes the entry of its lesion only: that lesion's files, sorted again, and its note |
| StaticHtml.EntriesUpdate | scripts/generate_static_html.py:42-48 | replacing one lesion's files changes that lesion's entry and no other |
| StaticHtml.GetSubjectData | scripts/generate_static_html.py:31-49 | `get_subject_data` over the listing and the comparison table: the subject's lesions, or `KeyError` for 'Lesion ID', then for 'Multiple Matches', when a listed file matches and the table lacks that column |
| StaticHtml.GroupSlices | scripts/generate_static_html.py:37-48 | the loop stops at a matching file exactly when the table lacks a selected column and some file matches; otherwise it builds the lesions dict |
| HtmlProperties.ConfigSections | scripts/generate_static_html.py:10-14 | the configuration dict has a key for every section name and no other |
| HtmlProperties.ConfigItems | scripts/generate_static_html.py:11-13 | a section's dict has a key for exactly its item keys, each holding the key's last value |
| HtmlProperties.SubjectsSeenMembers | scripts/generate_static_html.py:23-28 | a subject is listed exactly when some ".jpg" entry names it, with "sub-" dropped |
| HtmlProperties.LesionNumberMatches | scripts/generate_static_html.py:34-40 | the pattern `^(sub-)?<subject>_(\d+)_(\d+)\.jpg$` accepts a name with first group d exactly when the name is built that way |
| HtmlProperties.SubjectDataIds | scripts/generate_static_html.py:37-43 | the lesion keys are the distinct keys of the matching files, in order of first appearance, and exactly the dict's keys |
| HtmlProperties.SubjectDataLesion | scripts/generate_static_html.py:42-48 | a lesion is present exactly when some file has its key; its slices are those files, sorted; its note is the table's value for the key, or '' |
| HtmlProperties.SubjectDataSlice | scripts/generate_static_html.py:44-45 | a file is among a lesion's slices exactly when it is listed and matches with that lesion's key |
| HtmlProperties.FirstNoteIsFirstRow | scripts/generate_static_html.py:46-47 | the lookup gives the 'Multiple Matches' cell of the first row whose Lesion ID is the key, and nothing when no row has it |
| HtmlProperties.TableNote | scripts/generate_static_html.py:46-48 | with both columns present, a lesion's note is the first carrying row's 'Multiple Matches' cell, or '' when that cell is NaN |
| HtmlProperties.NoMatchNoLesions | scripts/generate_static_html.py:37-49 | a listing with no matching file gives the subject with no lesions |
| HtmlProperties.MatcherTableRaises | scripts/generate_static_html.py:35-46 | on the table the matcher writes (columns Lesion ID, Underlay, Reader_1, Reader_2), `get_subject_data` raises `KeyError('Multiple Matches')` exactly when a listed file matches, and returns no lesions otherwise |
| HtmlProperties.RenderedSliceListed | scripts/generate_static_html.py:23-34 | every slice rendered for a folder without '_' is listed under that folder's subject and matches with the lesion counter as its number |
| HtmlProperties.StaticKeyDropsSubPrefix | scripts/generate_static_html.py:40-41 | as written: a slice rendered for a "sub-…" folder is grouped under a key that is not the Lesion ID it was rendered for |
| HtmlProperties.IntendedKeyIsLesionId | scripts/generate_static_html.py:40-41 | with the matched prefix kept, every rendered slice is grouped under the Lesion ID it was rendered for |
| AnnotationApp.SaveAnnotations | scripts/app.py:38-62 | fails exactly for a falsy subject or annotations; otherwise it upserts every annotation into the table read (empty when the file is missing); the older copy, app.py:28-51, behaves alike |
| AnnotationApp.SubjectsOf | scripts/app.py:78-83 | the subjects are strictly increasing, and exactly the prefixes before the first '_' of the ".jpg" entries |
| AnnotationApp.ListSubjects | scripts/app.py:73-83 | a missing slices directory gives []; otherwise the sorted distinct prefixes |
| AnnotationApp.ListSubjectsUnchecked | app.py:59-66 | listing fails exactly when the directory is missing; otherwise the sorted distinct prefixes |
| AnnotationApp.CollectLesions | scripts/app.py:88-93 | the loop groups the listing by lesion key, new keys last |
| AnnotationApp.SortLesions | scripts/app.py:95-96 | every lesion's list is sorted |
| AnnotationApp.GetAppSubjectData | scripts/app.py:85-101 | `get_subject_data`: the grouped, sorted lists (their meaning is in AppSubjectDataLesion); the older copy, app.py:68-84, behaves alike |
| AppProperties.UpsertRows | scripts/app.py:54-60 | one upsert keeps every row in place and sets the annotation of each row with the key; only when there is none does it append exactly one row |
| AppProperties.UpsertSets | scripts/app.py:54-60 | after one upsert the key has a row, and every row with the key holds the new annotation |
| AppProperties.UpsertKeepsOthers | scripts/app.py:54-60 | an upsert leaves the rows of every other key as they were, in order |
| AppProperties.UpsertAllFrom | scripts/app.py:53-60 | the loop upserts every annotation; for a repeated lesion id the last value wins; existing rows keep their place and ids, and the appended rows have distinct lesion ids no earlier row of the subject has |
| AppProperties.UpsertAllInPlace | app.py:42-49 | when every lesion id already has a row, the loop appends nothing |
| AppProperties.UpsertAllIdempotent | scripts/app.py:53-60 | saving the same annotations again leaves the table as it is |
| AppProperties.SavedFromMissingFile | scripts/app.py:48-51 | without a file the table written has the subject's rows for exactly the request's ids, each with its annotation |
| AppProperties.PrefixesSeenMembers | scripts/app.py:79-82 | a subject is listed exactly when some ".jpg" entry starts with it followed by '_' or the name's end |
| AppProperties.AppKeyOfSlice | scripts/app.py:89-90 | the lesion key of a slice file of a subject is its Lesion ID |
| AppProperties.PrefixSubjectCollected | scripts/app.py:89 | as written: a subject's page also lists the lesions of every subject whose name starts with it |
| AppProperties.Sub1CollectsSub10 | scripts/app.py:89 | as written: "sub-1" collects the slices of "sub-10" |
| AppProperties.IntendedAppKeyOwnSubject | scripts/app.py:89-90 | with '_' in the prefix test, a subject's page lists the slices of its own folder and of no other |
| AppProperties.IntendedKeyOwnSlice | scripts/app.py:89-90 | with the corrected test, a slice of the subject's own folder is listed under its Lesion ID |
| AppProperties.IntendedKeyOtherFolder | scripts/app.py:89-90 | with the corrected test, a slice of another '_'-free folder is not listed |
| AppProperties.AppSubjectDataLesion | scripts/app.py:88-96 | a lesion is present exactly when some listed file has its key; its list is those files, sorted; keys are listed once each |
| Strings.AllButLastPart | scripts/app.py:90 | `'_'.join(s.split('_')[:-1])` is the text before the last '_', or '' without one |
| Strings.KeyBeforeLastSep | scripts/app.py:90 | `'_'.join((key + "_" + last).split('_')[:-1])` is `key` when `last` has no '_' |
| Strings.JoinSplit | scripts/app.py:90 | joining the parts of `s.split(sep)` with `sep` gives `s` back; no part holds the separator; there are two or more parts exactly when `s` has one |
| Strings.SplitHead | scripts/generate_static_html.py:25 | `s.split('_')[0]` is the text before the first '_' |
| Strings.PadNumRoundTrip | scripts/match_lesions.py:81 | a zero-padded counter parses back to the counter |
| Strings.PadNumInjective | scripts/match_lesions.py:81 | different counters never get the same padded text |
| Collections.SortBySorts | scripts/generate_static_html.py:29 | `sorted` returns a sorted permutation of its input |
| Collections.SortedUnique | scripts/generate_static_html.py:45 | under a strict total order only one sorted arrangement exists, so Python's sort gives the model's list |
| Collections.SortedFromSet | scripts/generate_static_html.py:29 | `sorted(list(s))` holds every element once, in increasing order |
| Collections.UniqueSorted | scripts/Isolate_lesions.py:36 | `np.unique` lists every value once, in increasing order |
| Collections.Distinct | scripts/match_lesions.py:46 | `unique()` lists each value once, in order of first appearance |
| Collections.MapOfLastWins | scripts/generate_static_html.py:12-13 | a dict built from pairs holds each key's last value |

## Left out

- I/O is not modelled. File and directory reading and writing, nibabel, pandas CSV parsing and `to_csv` are out. Listings, the file system and tables are inputs, and what is written is a result value.
- Parallelism is not modelled. The `Pool`, `ProcessPoolExecutor`, `imap`, `as_completed` and tqdm are out. Subjects, masks and lesions are processed one at a time in their order.
- Libraries are parameters and are not implemented. Connected-component labelling carries its contract; dilation/erosion and the overlap test are unconstrained, and no property depends on them (VoxelInOneLesion is about the unsmoothed masks).
- Floating point is not modelled. This covers the median/percentile window, `vmin`/`vmax`, `equalize_hist` and the 0.5 alpha. The window is represented by the intensities it is computed from, and alpha by an "overlay on" flag.
- Rendering is not modelled: matplotlib figures, colour maps, `rot90`, titles and layout.
- The web layer is not modelled: Flask routes, templates, `send_from_directory` and the JSON responses.
- Logging is not modelled.
  - scripts/app.py calls an undefined `logger` after writing the table (lines 63 and 66). That request answers 500 even though the table was written.
  - The model states only the table written.
- Orchestration and configuration are not modelled: `main`, argument parsing, copying static assets and writing the HTML pages. Lesion_viewer.py, run_lesion_viewer.py and lesion_viewer_gui.py are not part of this model.
- Directory side effects are out: `makedirs` in `save_slices_as_jpeg` and the reader-folder removal in `process_mask`. The reader folder is modelled as a map from names to masks (ReaderFolderAfter).
- `get_lesions_from_directory` and `load_lesion_mask` are not modelled. The lesion table and the overlap test are inputs.
  - OutcomeProperties.ReaderFolderSubject states what a table from reader folders satisfies.
  - An empty table makes `match_lesions` fail for lack of columns. The model gives that case its own error.
- Reader-name order is not modelled. `sorted(reader_types)` at scripts/match_lesions.py:122 has no effect on the output, and `unique()` yields types in order of first appearance.
- Table cells are text.
  - pandas type inference is out, e.g. a numeric `subject_id` column.
  - Float-typed Lesion IDs are not modelled: pandas may read an id column as floats, and `str()` then gives text such as `1.0`. An empty cell gives "nan" (LesionTable.LesionIdOf).
  - A NaN cell is an absent value.
- Numpy shape errors are left out. Broadcasting between volumes of different shapes is not modelled: a shape mismatch makes drawing fail, which gives the `None` outcome. Pages written before an exception are not part of the outcome.
- configparser details are out: the DEFAULT section, interpolation and key lower-casing. Sections are a sequence of (name, items) pairs as read.
- Regular expressions are narrowed. `\d` matches only ASCII digits in the model, while Python's also matches other Unicode digits.
- JSON values are modelled as strings. A request's annotations are (lesion_id, annotation) pairs in order, so duplicate JSON keys are not modelled.
- scripts/generate_static_html.py `get_subject_data` on a missing slices directory is not modelled. It raises there; the model takes the listing as given.
- GetSubjectData: the comparison table is an input. A missing or unreadable TSV file, which makes `pd.read_csv` at line 36 raise even when no file matches, is not modelled.
- The 'Multiple Matches' lookup compares Lesion IDs as text. pandas' comparison of a key with a numeric Lesion ID column is not modelled.
- Voxel values are integers in the model. `get_fdata()` returns floats (scripts/Isolate_lesions.py:34, scripts/match_lesions.py:10), but only their order, equality and being non-zero are used, so this loses nothing.
- The app's `get_subject_data` on a missing slices directory is not modelled. `os.listdir` raises there (scripts/app.py:88, app.py:71); the model takes the listing as given.

## Findings

| source | as written | input that shows it | evidently intended | confidence | as-written member | corrected member |
|---|---|---|---|---|---|---|
| scripts/match_lesions.py:50-52,117,119-120 | a one-reader subject contributes "No_Reader" to the collected reader names | one subject with lesions of Reader_1 only, and one with lesions of Reader_1 and Reader_2: the names are {Reader_1, Reader_2, No_Reader} and `match_lesions` raises | accept any mix of one- and two-reader subjects; ignore "No_Reader" when counting reader names | not executed | OutcomeProperties.MixedReadersRejected | OutcomeProperties.IntendedAcceptsReaderFolders |
| image_processing.py:173-175 | the crop window comes from the first loaded mask only | 1 x 1 x 3 volumes, Reader_1 marks slice 0 and Reader_2 marks slice 2, in-plane margin 1, slice margin 0: only slice 0 is rendered and Reader_2's lesion is never shown | the window pools the foreground of every loaded mask, as scripts/image_processing.py:71-97 does | not executed | SliceProperties.LegacyMissesSecondReader | SliceProperties.CurrentRendersEveryForegroundSlice |
| scripts/generate_static_html.py:40-41 | the lesion key is `<subject>_<lesion number>`, without the optional "sub-" the pattern matched | folder "sub-01", lesion counter 1, slice 0: file "sub-01_001_000.jpg" gets key "01_001", but its Lesion ID is "sub-01_001", so on a table with a 'Multiple Matches' column the lookup finds nothing; the matcher's own four-column table makes line 46 raise `KeyError` first (HtmlProperties.MatcherTableRaises) | key the lesion by the matched prefix, subject and number, which is the Lesion ID | not executed | HtmlProperties.StaticKeyDropsSubPrefix | HtmlProperties.IntendedKeyIsLesionId |
| scripts/app.py:89 | `filename.startswith(subject_id)` | subject "sub-1" and file "sub-10_001_000.jpg": the page of "sub-1" lists lesion "sub-10_001" | test the prefix `subject_id + '_'` | not executed | AppProperties.Sub1CollectsSub10 | AppProperties.IntendedAppKeyOwnSubject |
