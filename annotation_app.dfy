/**
 * The annotation viewer's server side (scripts/app.py and its older copy
 * app.py): saving a batch of annotations into the annotations table, and
 * listing subjects and one subject's lesions from the slices directory.
 *
 * The request body, the annotations file (absent or its rows) and the
 * directory listing are inputs; the value saved is the table `to_csv`
 * writes. Flask, templates and the JSON response text are not part of
 * this model.
 */
module AnnotationApp {
  import opened Wrappers
  import opened Strings
  import opened Collections
  import opened SliceListing

  // ---------------------------------------------------------------------------
  // save_annotations
  // ---------------------------------------------------------------------------

  /** One row of the annotations table: columns lesion_id, subject_id, annotation. */
  datatype Row = Row(lesionId: string, subjectId: string, annotation: string)

  /** The 400 answer: 'Missing parameters'. */
  datatype SaveError = MissingParameters

  /** A row the mask `(df['lesion_id'] == lesion_id) & (df['subject_id'] == subject_id)` selects. */
  predicate Matches(r: Row, lesionId: string, subjectId: string) {
    r.lesionId == lesionId && r.subjectId == subjectId
  }

  /** `mask.any()`. */
  predicate HasRow(rows: seq<Row>, lesionId: string, subjectId: string) {
    exists i :: 0 <= i < |rows| && Matches(rows[i], lesionId, subjectId)
  }

  /** `df.loc[mask, 'annotation'] = annotation`. */
  function SetMatching(rows: seq<Row>, lesionId: string, subjectId: string, annotation: string): (r: seq<Row>)
    ensures |r| == |rows|
  {
    seq(|rows|, i requires 0 <= i < |rows| =>
      if Matches(rows[i], lesionId, subjectId) then rows[i].(annotation := annotation) else rows[i])
  }

  /** One pass of the loop: overwrite the matching rows, or append one new row when there are none. */
  function Upsert(rows: seq<Row>, lesionId: string, subjectId: string, annotation: string): seq<Row> {
    if HasRow(rows, lesionId, subjectId) then SetMatching(rows, lesionId, subjectId, annotation)
    else rows + [Row(lesionId, subjectId, annotation)]
  }

  /** The table after the loop over the first `|items|` annotations, in the request's order. */
  function UpsertAll(rows: seq<Row>, subjectId: string, items: seq<(string, string)>): seq<Row> {
    if items == [] then rows
    else
      var last := items[|items| - 1];
      Upsert(UpsertAll(rows, subjectId, items[..|items| - 1]), last.0, subjectId, last.1)
  }

  /** `not subject_id`: absent, JSON null or the empty string. */
  predicate FalsySubject(subjectId: Option<string>) {
    subjectId.None? || subjectId.value == ""
  }

  /** `not annotations`: absent, JSON null or an empty object. */
  predicate FalsyAnnotations(annotations: Option<seq<(string, string)>>) {
    annotations.None? || annotations.value == []
  }

  /**
   * What `save_annotations` writes: the error when a parameter is falsy,
   * otherwise the table read from the file (an empty table when the file
   * does not exist) after the upsert of every annotation.
   */
  function Saved(subjectId: Option<string>, annotations: Option<seq<(string, string)>>, file: Option<seq<Row>>)
    : Result<seq<Row>, SaveError>
  {
    if FalsySubject(subjectId) || FalsyAnnotations(annotations) then Err(MissingParameters)
    else Ok(UpsertAll(if file.Some? then file.value else [], subjectId.value, annotations.value))
  }

  /** `save_annotations`: the table to write, or the error. */
  method SaveAnnotations(subjectId: Option<string>, annotations: Option<seq<(string, string)>>, file: Option<seq<Row>>)
    returns (r: Result<seq<Row>, SaveError>)
    ensures r.Err? <==> FalsySubject(subjectId) || FalsyAnnotations(annotations)
    ensures r == Saved(subjectId, annotations, file)
  {
    if FalsySubject(subjectId) || FalsyAnnotations(annotations) {
      r := Err(MissingParameters);
    } else {
      var items := annotations.value;
      var df: seq<Row> := [];
      if file.Some? {
        df := file.value;
      }
      ghost var start := df;
      for t := 0 to |items|
        invariant df == UpsertAll(start, subjectId.value, items[..t])
      {
        assert items[..t + 1][..t] == items[..t];
        var (lesionId, annotation) := items[t];
        if HasRow(df, lesionId, subjectId.value) {
          df := SetMatching(df, lesionId, subjectId.value, annotation);
        } else {
          df := df + [Row(lesionId, subjectId.value, annotation)];
        }
      }
      assert items[..|items|] == items;
      r := Ok(df);
    }
  }

  // ---------------------------------------------------------------------------
  // get_subject_list
  // ---------------------------------------------------------------------------

  /** The text before the first '_'. */
  function NamePrefix(name: string): string {
    Split(name, '_')[0]
  }

  /** The prefixes of the ".jpg" entries among the first `n`. */
  function PrefixesSeen(listing: seq<string>, n: nat): set<string>
    requires n <= |listing|
  {
    if n == 0 then {}
    else PrefixesSeen(listing, n - 1) + if EndsWith(listing[n - 1], ".jpg") then {NamePrefix(listing[n - 1])} else {}
  }

  /** The set loop and `sorted(list(subjects))` over a listing. */
  method SubjectsOf(listing: seq<string>) returns (subjects: seq<string>)
    ensures StrictlySortedBy(subjects, StrOrder())
    ensures forall x :: x in subjects <==> x in PrefixesSeen(listing, |listing|)
  {
    var found: set<string> := {};
    for t := 0 to |listing|
      invariant found == PrefixesSeen(listing, t)
    {
      if EndsWith(listing[t], ".jpg") {
        found := found + {NamePrefix(listing[t])};
      }
    }
    StrOrderIsOrder();
    subjects := SortedFromSet(found, StrOrder());
  }

  /** scripts/app.py `get_subject_list`: a missing slices directory is created and the list is empty. */
  method ListSubjects(slicesExist: bool, listing: seq<string>) returns (subjects: seq<string>)
    ensures !slicesExist ==> subjects == []
    ensures slicesExist ==> StrictlySortedBy(subjects, StrOrder())
    ensures slicesExist ==> forall x :: x in subjects <==> x in PrefixesSeen(listing, |listing|)
  {
    subjects := [];
    if slicesExist {
      subjects := SubjectsOf(listing);
    }
  }

  /** app.py `get_subject_list`: without the check, listing a missing directory fails (`None`). */
  method ListSubjectsUnchecked(slicesExist: bool, listing: seq<string>) returns (subjects: Option<seq<string>>)
    ensures subjects.None? <==> !slicesExist
    ensures subjects.Some? ==> StrictlySortedBy(subjects.value, StrOrder())
    ensures subjects.Some? ==> forall x :: x in subjects.value <==> x in PrefixesSeen(listing, |listing|)
  {
    subjects := None;
    if slicesExist {
      var found := SubjectsOf(listing);
      subjects := Some(found);
    }
  }

  // ---------------------------------------------------------------------------
  // get_subject_data
  // ---------------------------------------------------------------------------

  /**
   * The lesion a file is listed under: `'_'.join(filename.split('_')[:-1])`
   * for a name that starts with the subject id and ends with ".jpg", `None`
   * for a name that is skipped.
   */
  function AppKey(subject: string, name: string): Option<string> {
    if StartsWith(name, subject) && EndsWith(name, ".jpg") then
      var parts := Split(name, '_');
      Some(Join(parts[..|parts| - 1], '_'))
    else None
  }

  function AppKeys(subject: string, listing: seq<string>): (keys: seq<Option<string>>)
    ensures |keys| == |listing|
  {
    seq(|listing|, t requires 0 <= t < |listing| => AppKey(subject, listing[t]))
  }

  /** `{'subject_id': ..., 'lesions': ...}`, with the lesion keys in insertion order. */
  datatype AppSubjectData = AppSubjectData(subjectId: string, ids: seq<string>, lesions: map<string, seq<string>>)

  /** The lists of the keys among the first `n` of `ids` sorted, the others as collected. */
  function SortedFirst(files: map<string, seq<string>>, ids: seq<string>, n: nat): map<string, seq<string>>
    requires n <= |ids|
  {
    map k | k in files :: if k in ids[..n] then SortBy(files[k], StrOrder()) else files[k]
  }

  /** What `get_subject_data` returns. */
  function AppSubjectDataOf(subject: string, listing: seq<string>): AppSubjectData {
    var g := Grouped(listing, AppKeys(subject, listing), |listing|);
    AppSubjectData(subject, g.ids, map k | k in g.files :: SortBy(g.files[k], StrOrder()))
  }

  /** Sorting the list of one more key changes only that key's entry. */
  lemma SortedFirstStep(files: map<string, seq<string>>, ids: seq<string>, n: nat)
    requires n < |ids| && ids[n] in files && NoDuplicates(ids)
    ensures SortedFirst(files, ids, n)[ids[n]] == files[ids[n]]
    ensures SortedFirst(files, ids, n + 1) == SortedFirst(files, ids, n)[ids[n] := SortBy(files[ids[n]], StrOrder())]
  {
    assert ids[..n + 1] == ids[..n] + [ids[n]];
    assert ids[n] !in ids[..n];
  }

  /** Once every key's list is sorted, each entry is its sorted list. */
  lemma SortedAll(files: map<string, seq<string>>, ids: seq<string>)
    requires forall k :: k in files ==> k in ids
    ensures SortedFirst(files, ids, |ids|) == map k | k in files :: SortBy(files[k], StrOrder())
  {
    assert ids[..|ids|] == ids;
  }

  /** Lines 88-93: collect the matching files per lesion, new lesions last. */
  method CollectLesions(subject: string, listing: seq<string>) returns (ids: seq<string>, files: map<string, seq<string>>)
    ensures Groups(ids, files) == Grouped(listing, AppKeys(subject, listing), |listing|)
  {
    var keys := AppKeys(subject, listing);
    ids, files := [], map[];
    for t := 0 to |listing|
      invariant Groups(ids, files) == Grouped(listing, keys, t)
    {
      var key := AppKey(subject, listing[t]);
      assert key == keys[t];
      if key.Some? {
        if key.value !in files {
          ids := ids + [key.value];
          files := files[key.value := []];
          assert [] + [listing[t]] == [listing[t]];
        }
        files := files[key.value := files[key.value] + [listing[t]]];
      }
    }
  }

  /** Lines 95-96: sort each lesion's list, key by key. */
  method SortLesions(files: map<string, seq<string>>, ids: seq<string>) returns (lesions: map<string, seq<string>>)
    requires NoDuplicates(ids) && forall k :: k in ids ==> k in files
    ensures lesions == SortedFirst(files, ids, |ids|)
  {
    lesions := files;
    assert lesions == SortedFirst(files, ids, 0);
    for t := 0 to |ids|
      invariant lesions == SortedFirst(files, ids, t)
    {
      SortedFirstStep(files, ids, t);
      lesions := lesions[ids[t] := SortBy(lesions[ids[t]], StrOrder())];
    }
  }

  /** `get_subject_data`: collect, then sort each lesion's list in a second loop. */
  method GetAppSubjectData(subject: string, listing: seq<string>) returns (data: AppSubjectData)
    ensures data == AppSubjectDataOf(subject, listing)
  {
    var ids, files := CollectLesions(subject, listing);
    forall k ensures k in files <==> k in ids {
      GroupedKeys(listing, AppKeys(subject, listing), |listing|, k);
    }
    GroupedIds(listing, AppKeys(subject, listing), |listing|);
    var lesions := SortLesions(files, ids);
    SortedAll(files, ids);
    data := AppSubjectData(subject, ids, lesions);
  }
}
