/**
 * The data the static HTML export renders (scripts/generate_static_html.py):
 * the configuration as nested dicts, the list of subjects found in the slices
 * directory, and one subject's lesions, each with its slice images and its
 * "multiple matches" note.
 *
 * The directory listing, the configuration parser's sections and the
 * comparison table are inputs; templates and file writing are not
 * part of this model.
 */
module StaticHtml {
  import opened Wrappers
  import opened Strings
  import opened Collections
  import opened SliceListing
  import LesionTable

  // ---------------------------------------------------------------------------
  // config_to_dict
  // ---------------------------------------------------------------------------

  /** One section of a parsed configuration: its name and what `config[name].items()` yields. */
  datatype Section = Section(name: string, items: seq<(string, string)>)

  /** The (section name, section dict) pairs `config_to_dict` stores, in section order. */
  function SectionPairs(config: seq<Section>): (ps: seq<(string, map<string, string>)>)
    ensures |ps| == |config|
  {
    seq(|config|, t requires 0 <= t < |config| => (config[t].name, MapOf(config[t].items)))
  }

  /** What `config_to_dict` returns. */
  function ConfigDict(config: seq<Section>): map<string, map<string, string>> {
    MapOf(SectionPairs(config))
  }

  /** Lines 11-13: one section's dict. */
  method SectionToDict(items: seq<(string, string)>) returns (d: map<string, string>)
    ensures d == MapOf(items)
  {
    d := map[];
    for t := 0 to |items|
      invariant d == MapOf(items[..t])
    {
      assert items[..t + 1][..t] == items[..t];
      d := d[items[t].0 := items[t].1];
    }
    assert items[..|items|] == items;
  }

  /** `config_to_dict`. */
  method ConfigToDict(config: seq<Section>) returns (result: map<string, map<string, string>>)
    ensures result == ConfigDict(config)
  {
    result := map[];
    for t := 0 to |config|
      invariant result == MapOf(SectionPairs(config[..t]))
    {
      var sectionDict := SectionToDict(config[t].items);
      var ps := SectionPairs(config[..t + 1]);
      assert ps[..t] == SectionPairs(config[..t]);
      assert ps[t] == (config[t].name, sectionDict);
      result := result[config[t].name := sectionDict];
    }
    assert config[..|config|] == config;
  }

  // ---------------------------------------------------------------------------
  // get_subject_list
  // ---------------------------------------------------------------------------

  predicate IsJpg(name: string) {
    EndsWith(name, ".jpg")
  }

  /** A leading "sub-" removed, once. */
  function StripSub(s: string): string {
    if StartsWith(s, "sub-") then s[4..] else s
  }

  /** Lines 25-27: the text before the first '_', without a leading "sub-". */
  function SubjectOf(name: string): string {
    StripSub(Split(name, '_')[0])
  }

  /** The subjects of the ".jpg" entries among the first `n`. */
  function SubjectsSeen(listing: seq<string>, n: nat): set<string>
    requires n <= |listing|
  {
    if n == 0 then {}
    else SubjectsSeen(listing, n - 1) + if IsJpg(listing[n - 1]) then {SubjectOf(listing[n - 1])} else {}
  }

  /**
   * `get_subject_list`: when the slices directory is missing it is created
   * and the list is empty; otherwise the distinct subjects of the ".jpg"
   * entries, in increasing order.
   */
  method GetSubjectList(slicesExist: bool, listing: seq<string>) returns (subjects: seq<string>)
    ensures !slicesExist ==> subjects == []
    ensures slicesExist ==> StrictlySortedBy(subjects, StrOrder())
    ensures slicesExist ==> forall x :: x in subjects <==> x in SubjectsSeen(listing, |listing|)
  {
    subjects := [];
    if slicesExist {
      var found: set<string> := {};
      for t := 0 to |listing|
        invariant found == SubjectsSeen(listing, t)
      {
        if IsJpg(listing[t]) {
          found := found + {SubjectOf(listing[t])};
        }
      }
      StrOrderIsOrder();
      subjects := SortedFromSet(found, StrOrder());
    }
  }

  // ---------------------------------------------------------------------------
  // get_subject_data: the file name pattern
  // ---------------------------------------------------------------------------

  /** The length of the run of digits `\d` at the start of `s`. */
  function DigitRun(s: string): (k: nat)
    ensures k <= |s|
  {
    if s == [] || !IsDigit(s[0]) then 0 else 1 + DigitRun(s[1..])
  }

  /**
   * `(\d+)_(\d+)\.jpg$` matched at the start of `s`: the first digit group,
   * or `None`. Neither `\d+` can stop early (a digit is never '_' or '.'),
   * and `$` also matches just before a final newline.
   */
  function TailGroup(s: string): Option<string> {
    var k := DigitRun(s);
    if k == 0 || k == |s| || s[k] != '_' then None
    else
      var r := s[k + 1..];
      var j := DigitRun(r);
      if j > 0 && (r[j..] == ".jpg" || r[j..] == ".jpg\n") then Some(s[..k]) else None
  }

  /**
   * Line 34 and `match.group(2)`: `^(sub-)?<subject>_(\d+)_(\d+)\.jpg$`
   * with the subject taken literally; the optional "sub-" is tried first and
   * dropped when the rest does not match with it.
   */
  function LesionNumber(subject: string, name: string): Option<string> {
    var withSub := "sub-" + subject + "_";
    var plain := subject + "_";
    if StartsWith(name, withSub) && TailGroup(name[|withSub|..]).Some? then TailGroup(name[|withSub|..])
    else if StartsWith(name, plain) then TailGroup(name[|plain|..])
    else None
  }

  /** Lines 38-41: the lesion key of a file, `f"{subject_id}_{lesion_num}"`, or `None` when the name does not match. */
  function LesionKey(subject: string, name: string): Option<string> {
    match LesionNumber(subject, name)
    case None => None
    case Some(d) => Some(subject + "_" + d)
  }

  function LesionKeys(subject: string, listing: seq<string>): (keys: seq<Option<string>>)
    ensures |keys| == |listing|
  {
    seq(|listing|, t requires 0 <= t < |listing| => LesionKey(subject, listing[t]))
  }

  // ---------------------------------------------------------------------------
  // get_subject_data: the lesions dict
  // ---------------------------------------------------------------------------

  /** `{'slices': [...], 'multiple_matches': ...}`. */
  datatype Lesion = Lesion(slices: seq<string>, multipleMatches: string)

  /** `{'subject_id': ..., 'lesions': ...}`, with the lesion keys in insertion order. */
  datatype SubjectData = SubjectData(subjectId: string, ids: seq<string>, lesions: map<string, Lesion>)

  // ---------------------------------------------------------------------------
  // The comparison table: lesion_comparison_results.tsv
  // ---------------------------------------------------------------------------

  const MULTIPLE_MATCHES: string := "Multiple Matches"

  /** The `KeyError` pandas raises when line 46 selects a column the table lacks. */
  datatype DataError = KeyError(column: string)

  /** `row['Lesion ID'] == key`; a NaN cell equals nothing. */
  predicate RowHasId(row: LesionTable.Row, key: string) {
    LesionTable.LESION_ID in row && row[LesionTable.LESION_ID] == key
  }

  /** A row's 'Multiple Matches' cell, `None` when it is NaN. */
  function NoteCell(row: LesionTable.Row): Option<string> {
    if MULTIPLE_MATCHES in row then Some(row[MULTIPLE_MATCHES]) else None
  }

  /**
   * Lines 46-47: `df[df['Lesion ID'] == key]['Multiple Matches'].values[0]`
   * when there is such a row, `None` when there is none.
   */
  function FirstNote(rows: seq<LesionTable.Row>, key: string): Option<string> {
    if rows == [] then None
    else if RowHasId(rows[0], key) then NoteCell(rows[0])
    else FirstNote(rows[1..], key)
  }

  /** The lookup line 46 performs on a table that has both columns it selects. */
  function TableLookup(tsv: LesionTable.Tsv): string -> Option<string> {
    key => FirstNote(tsv.rows, key)
  }

  /** The table has the two columns line 46 selects. */
  predicate NoteColumns(tsv: LesionTable.Tsv) {
    LesionTable.LESION_ID in tsv.columns && MULTIPLE_MATCHES in tsv.columns
  }

  /**
   * The note for a lesion: `lookup(key)` is the first 'Multiple Matches'
   * value of the table rows whose Lesion ID is `key`, `None` when there is no
   * such row or the value is NaN; the note stays '' then.
   */
  function NoteFor(lookup: string -> Option<string>, key: string): string {
    if lookup(key).Some? then lookup(key).value else ""
  }

  /** The lesion entries of some groups: each group's files in sorted order, and its note. */
  function Entries(g: Groups, lookup: string -> Option<string>): map<string, Lesion> {
    EntriesOf(g.files, lookup)
  }

  /** One entry per lesion: its files sorted, and its note. */
  function EntriesOf(files: map<string, seq<string>>, lookup: string -> Option<string>): map<string, Lesion> {
    map k | k in files :: Lesion(SortBy(files[k], StrOrder()), NoteFor(lookup, k))
  }

  /** The data for a table with the columns line 46 selects. */
  function SubjectDataOf(subject: string, listing: seq<string>, lookup: string -> Option<string>): SubjectData {
    var g := Grouped(listing, LesionKeys(subject, listing), |listing|);
    SubjectData(subject, g.ids, Entries(g, lookup))
  }

  /** None of the first `n` files matches. */
  predicate NoKeyBefore(keys: seq<Option<string>>, n: nat) {
    forall u :: 0 <= u < n && u < |keys| ==> keys[u].None?
  }

  lemma NoKeyStep(keys: seq<Option<string>>, n: nat)
    requires NoKeyBefore(keys, n) && n < |keys| && keys[n].None?
    ensures NoKeyBefore(keys, n + 1)
  {
  }

  /** Some listed file matches the subject's pattern. */
  predicate AnyMatch(subject: string, listing: seq<string>) {
    exists t :: 0 <= t < |listing| && LesionKeys(subject, listing)[t].Some?
  }

  /**
   * What `get_subject_data` returns, or the `KeyError` line 46 raises at the
   * first matching file: for 'Lesion ID' first, then for 'Multiple Matches'.
   */
  function SubjectDataOutcome(subject: string, listing: seq<string>, tsv: LesionTable.Tsv): Result<SubjectData, DataError> {
    if AnyMatch(subject, listing) then
      if LesionTable.LESION_ID !in tsv.columns then Err(KeyError(LesionTable.LESION_ID))
      else if MULTIPLE_MATCHES !in tsv.columns then Err(KeyError(MULTIPLE_MATCHES))
      else Ok(SubjectDataOf(subject, listing, TableLookup(tsv)))
    else Ok(SubjectDataOf(subject, listing, TableLookup(tsv)))
  }

  /** Adding a file to the groups changes the entry of its key only: that group's files, sorted again. */
  lemma EntriesAdd(g: Groups, key: string, name: string, lookup: string -> Option<string>)
    ensures Entries(AddFile(g, key, name), lookup)
      == Entries(g, lookup)[key := Lesion(SortBy((if key in g.files then g.files[key] else []) + [name], StrOrder()),
                                          NoteFor(lookup, key))]
  {
    var files := if key in g.files then g.files[key] else [];
    if key !in g.files {
      assert [] + [name] == [name];
    }
    assert AddFile(g, key, name).files == g.files[key := files + [name]];
    EntriesUpdate(g.files, key, files + [name], lookup);
  }

  /** Replacing one lesion's files changes that lesion's entry only. */
  lemma EntriesUpdate(files: map<string, seq<string>>, key: string, v: seq<string>, lookup: string -> Option<string>)
    ensures EntriesOf(files[key := v], lookup) == EntriesOf(files, lookup)[key := Lesion(SortBy(v, StrOrder()), NoteFor(lookup, key))]
  {
    var lhs := EntriesOf(files[key := v], lookup);
    var rhs := EntriesOf(files, lookup)[key := Lesion(SortBy(v, StrOrder()), NoteFor(lookup, key))];
    assert lhs.Keys == rhs.Keys;
    forall k | k in lhs ensures lhs[k] == rhs[k] {
      if k != key {
        assert files[key := v][k] == files[k];
      }
    }
  }

  /** Lines 42-48 for one matching file: add it to its lesion, sort the lesion's slices, and set the note. */
  method AddSlice(g: Groups, ids: seq<string>, lesions: map<string, Lesion>, key: string, name: string,
                  lookup: string -> Option<string>)
    returns (ids': seq<string>, lesions': map<string, Lesion>)
    requires ids == g.ids && lesions == Entries(g, lookup)
    ensures ids' == AddFile(g, key, name).ids && lesions' == Entries(AddFile(g, key, name), lookup)
  {
    var entry := Lesion([], "");
    ids' := ids + [key];
    if key in lesions {
      entry := lesions[key];
      ids' := ids;
    }
    var slices := SortBy(entry.slices + [name], StrOrder());
    var note := entry.multipleMatches;
    var found := lookup(key);
    if found.Some? {
      note := found.value;
    }
    lesions' := lesions[key := Lesion(slices, note)];
    EntriesAdd(g, key, name, lookup);
    if key in g.files {
      StrOrderIsOrder();
      ResortAppend(g.files[key], name, StrOrder());
    }
  }

  /** `get_subject_data` over the listing of the slices directory and the comparison table. */
  method GetSubjectData(subject: string, listing: seq<string>, tsv: LesionTable.Tsv)
    returns (r: Result<SubjectData, DataError>)
    ensures r == SubjectDataOutcome(subject, listing, tsv)
  {
    var data := GroupSlices(subject, listing, NoteColumns(tsv), TableLookup(tsv));
    if data.None? {
      if LesionTable.LESION_ID !in tsv.columns {
        r := Err(KeyError(LesionTable.LESION_ID));
      } else {
        r := Err(KeyError(MULTIPLE_MATCHES));
      }
    } else {
      r := Ok(data.value);
    }
  }

  /**
   * The loop of lines 37-48 with the lookup `lookup`; it stops at the first
   * matching file (`None`) when the table lacks the columns line 46 selects.
   */
  method GroupSlices(subject: string, listing: seq<string>, columns: bool, lookup: string -> Option<string>)
    returns (data: Option<SubjectData>)
    ensures data.None? <==> !columns && AnyMatch(subject, listing)
    ensures data.Some? ==> data.value == SubjectDataOf(subject, listing, lookup)
  {
    var keys := LesionKeys(subject, listing);
    var ids: seq<string> := [];
    var lesions: map<string, Lesion> := map[];
    for t := 0 to |listing|
      invariant ids == Grouped(listing, keys, t).ids
      invariant lesions == Entries(Grouped(listing, keys, t), lookup)
      invariant columns || NoKeyBefore(keys, t)
    {
      var key := keys[t];
      if key.Some? {
        if !columns {
          return None;
        }
        ids, lesions := AddSlice(Grouped(listing, keys, t), ids, lesions, key.value, listing[t], lookup);
      } else if !columns {
        NoKeyStep(keys, t);
      }
    }
    data := Some(SubjectData(subject, ids, lesions));
  }
}
