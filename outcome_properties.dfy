/**
 * What `process_subject` and `match_lesions` (scripts/match_lesions.py) return
 * or raise, over whole tables: which subjects fail, which reader names are
 * collected, and the check on those names at the end.
 */
module OutcomeProperties {
  import opened Wrappers
  import opened Readers
  import opened Collections
  import opened LesionMatching
  import opened MatchProperties

  /** Every lesion was found in a `Reader_1` or `Reader_2` folder, as the directory scan guarantees. */
  predicate ReaderFoldersOnly(data: seq<LesionEntry>) {
    forall k :: 0 <= k < |data| ==> data[k].readerType == READER_1 || data[k].readerType == READER_2
  }

  // ---------------------------------------------------------------------------
  // One subject table
  // ---------------------------------------------------------------------------

  /** `data[data['Subject Folder'] == s]` holds exactly the entries of subject `s`. */
  lemma {:induction false} SubjectTableMembers(data: seq<LesionEntry>, s: string)
    ensures forall k :: 0 <= k < |SubjectTable(data, s)| ==> SubjectTable(data, s)[k].subject == s && SubjectTable(data, s)[k] in data
    ensures forall k :: 0 <= k < |data| && data[k].subject == s ==> data[k] in SubjectTable(data, s)
  {
    if data != [] {
      var init := data[..|data| - 1];
      SubjectTableMembers(init, s);
      assert forall k :: 0 <= k < |init| ==> init[k] == data[k];
    }
  }

  /** The reader types of a table, each once, are among `values` when every entry's type is. */
  lemma TypesWithin(data: seq<LesionEntry>, values: set<string>)
    requires forall k :: 0 <= k < |data| ==> data[k].readerType in values
    ensures |Distinct(ReaderTypes(data))| <= |values|
  {
    var d := Distinct(ReaderTypes(data));
    forall k | 0 <= k < |d| ensures d[k] in values {
      var m :| 0 <= m < |ReaderTypes(data)| && ReaderTypes(data)[m] == d[k];
    }
    DistinctWithin(d, values);
  }

  /** `process_subject` fails exactly when the names cannot be chosen, and then with the same error. */
  lemma OutcomeReaders(data: seq<LesionEntry>, ov: (Path, Path) -> bool)
    ensures SubjectOutcome(data, ov).Ok? <==> SubjectReaders(data).Ok?
    ensures SubjectOutcome(data, ov).Err? ==> SubjectOutcome(data, ov).error == SubjectReaders(data).error
    ensures SubjectOutcome(data, ov).Ok? ==>
      && SubjectOutcome(data, ov).value.reader1 == SubjectReaders(data).value.reader1
      && SubjectOutcome(data, ov).value.reader2 == SubjectReaders(data).value.reader2
  {
  }

  /**
   * The names cannot be chosen exactly for an empty table or more than two
   * reader types; otherwise reader 1 is the type of the first entry, and the
   * second name is "No_Reader" when one type is present and the other type
   * when two are.
   */
  lemma SubjectReadersCases(data: seq<LesionEntry>)
    ensures SubjectReaders(data).Err? <==> data == [] || |Distinct(ReaderTypes(data))| > 2
    ensures data == [] ==> SubjectReaders(data) == Err(NoLesions)
    ensures SubjectReaders(data).Ok? ==> SubjectReaders(data).value.reader1 == data[0].readerType
    ensures SubjectReaders(data).Ok? && |Distinct(ReaderTypes(data))| == 1 ==> SubjectReaders(data).value.reader2 == NO_READER
    ensures SubjectReaders(data).Ok? && |Distinct(ReaderTypes(data))| == 2 ==>
      && SubjectReaders(data).value.reader2 != SubjectReaders(data).value.reader1
      && SubjectReaders(data).value.reader2 in ReaderTypes(data)
  {
    if data != [] {
      DistinctHead(ReaderTypes(data));
      assert ReaderTypes(data)[0] in Distinct(ReaderTypes(data));
    }
  }

  /** A table whose entries all have one reader type names it first and "No_Reader" second. */
  lemma OneTypeReaders(data: seq<LesionEntry>)
    requires data != [] && forall k :: 0 <= k < |data| ==> data[k].readerType == data[0].readerType
    ensures SubjectReaders(data) == Ok(ReaderNames(data[0].readerType, NO_READER))
  {
    DistinctConstant(ReaderTypes(data));
  }

  /** With lesions from the reader folders only, a subject never fails and names no other reader. */
  lemma ReaderFolderSubject(data: seq<LesionEntry>)
    requires data != [] && ReaderFoldersOnly(data)
    ensures SubjectReaders(data).Ok?
    ensures SubjectReaders(data).value.reader1 in {READER_1, READER_2}
    ensures SubjectReaders(data).value.reader2 in {READER_1, READER_2, NO_READER}
  {
    TypesWithin(data, {READER_1, READER_2});
    var d := Distinct(ReaderTypes(data));
    assert ReaderTypes(data)[0] in d;
    forall k | 0 <= k < |d| ensures d[k] in {READER_1, READER_2} {
      var m :| 0 <= m < |ReaderTypes(data)| && ReaderTypes(data)[m] == d[k];
    }
  }

  /** A subject with lesions of both readers reports both names. */
  lemma BothReadersSubject(data: seq<LesionEntry>, k1: nat, k2: nat)
    requires ReaderFoldersOnly(data)
    requires k1 < |data| && k2 < |data| && data[k1].readerType == READER_1 && data[k2].readerType == READER_2
    ensures SubjectReaders(data).Ok?
    ensures {SubjectReaders(data).value.reader1, SubjectReaders(data).value.reader2} == {READER_1, READER_2}
  {
    var d := Distinct(ReaderTypes(data));
    ReaderFolderSubject(data);
    TypesWithin(data, {READER_1, READER_2});
    assert ReaderTypes(data)[k1] in d && ReaderTypes(data)[k2] in d;
    var i1 :| 0 <= i1 < |d| && d[i1] == READER_1;
    var i2 :| 0 <= i2 < |d| && d[i2] == READER_2;
    assert READER_1 != READER_2 by {
      assert READER_1[7] != READER_2[7];
    }
    assert i1 != i2;
    assert d[0] != d[1];
  }

  // ---------------------------------------------------------------------------
  // The loop over subjects
  // ---------------------------------------------------------------------------

  /**
   * When the subjects collect without error, every one of them succeeded and
   * both of its reader names are among the collected names.
   */
  lemma {:induction false} CollectedSubject(data: seq<LesionEntry>, subjects: seq<string>, ov: (Path, Path) -> bool, k: nat)
    requires k < |subjects| && Collect(data, subjects, ov).Ok?
    ensures SubjectReaders(SubjectTable(data, subjects[k])).Ok?
    ensures SubjectReaders(SubjectTable(data, subjects[k])).value.reader1 in Collect(data, subjects, ov).value.readerNames
    ensures SubjectReaders(SubjectTable(data, subjects[k])).value.reader2 in Collect(data, subjects, ov).value.readerNames
  {
    var init := subjects[..|subjects| - 1];
    if k < |init| {
      CollectedSubject(data, init, ov, k);
      assert init[k] == subjects[k];
    } else {
      OutcomeReaders(SubjectTable(data, subjects[k]), ov);
    }
  }

  /**
   * When every subject succeeds and names only readers from `names`, the
   * subjects collect without error and only names from `names` are collected.
   */
  lemma {:induction false} CollectAllOk(data: seq<LesionEntry>, subjects: seq<string>, ov: (Path, Path) -> bool, names: set<string>)
    requires forall k :: 0 <= k < |subjects| ==>
      && SubjectReaders(SubjectTable(data, subjects[k])).Ok?
      && SubjectReaders(SubjectTable(data, subjects[k])).value.reader1 in names
      && SubjectReaders(SubjectTable(data, subjects[k])).value.reader2 in names
    ensures Collect(data, subjects, ov).Ok?
    ensures Collect(data, subjects, ov).value.readerNames <= names
  {
    if subjects != [] {
      var init := subjects[..|subjects| - 1];
      assert forall k :: 0 <= k < |init| ==> init[k] == subjects[k];
      CollectAllOk(data, init, ov, names);
      OutcomeReaders(SubjectTable(data, subjects[|subjects| - 1]), ov);
    }
  }

  /** A subject that fails makes `match_lesions` fail. */
  lemma AnySubjectFailure(data: seq<LesionEntry>, ov: (Path, Path) -> bool, k: nat)
    requires k < |data| && SubjectReaders(SubjectTable(data, data[k].subject)).Err?
    ensures MatchOutcome(data, ov).Err?
  {
    var subjects := Distinct(SubjectColumn(data));
    assert SubjectColumn(data)[k] in subjects;
    var m :| 0 <= m < |subjects| && subjects[m] == data[k].subject;
    if Collect(data, subjects, ov).Ok? {
      CollectedSubject(data, subjects, ov, m);
    }
  }

  /** Every subject of the table appears in the collected subjects, and has a non-empty table. */
  lemma SubjectListed(data: seq<LesionEntry>, m: nat)
    requires m < |Distinct(SubjectColumn(data))|
    ensures SubjectTable(data, Distinct(SubjectColumn(data))[m]) != []
  {
    var s := Distinct(SubjectColumn(data))[m];
    var k :| 0 <= k < |SubjectColumn(data)| && SubjectColumn(data)[k] == s;
    SubjectTableMembers(data, s);
    assert data[k] in SubjectTable(data, s);
  }

  // ---------------------------------------------------------------------------
  // The reader-name check at the end of match_lesions
  // ---------------------------------------------------------------------------

  /** The table of a subject whose lesions all come from one reader names "No_Reader" as second reader. */
  lemma OneReaderTable(data: seq<LesionEntry>, a: nat)
    requires a < |data| && forall k :: 0 <= k < |data| && data[k].subject == data[a].subject ==> data[k].readerType == data[a].readerType
    ensures SubjectReaders(SubjectTable(data, data[a].subject)).Ok?
    ensures SubjectReaders(SubjectTable(data, data[a].subject)).value.reader2 == NO_READER
  {
    var t := SubjectTable(data, data[a].subject);
    assert t != [] && forall k :: 0 <= k < |t| ==> t[k].readerType == data[a].readerType by {
      SubjectTableMembers(data, data[a].subject);
      assert data[a] in t;
    }
    OneTypeReaders(t);
  }

  /** The table of a subject with lesions of both readers names both of them. */
  lemma TwoReaderTable(data: seq<LesionEntry>, b1: nat, b2: nat)
    requires ReaderFoldersOnly(data)
    requires b1 < |data| && b2 < |data| && data[b1].subject == data[b2].subject
    requires data[b1].readerType == READER_1 && data[b2].readerType == READER_2
    ensures SubjectReaders(SubjectTable(data, data[b1].subject)).Ok?
    ensures {SubjectReaders(SubjectTable(data, data[b1].subject)).value.reader1,
             SubjectReaders(SubjectTable(data, data[b1].subject)).value.reader2} == {READER_1, READER_2}
  {
    var t := SubjectTable(data, data[b1].subject);
    SubjectTableMembers(data, data[b1].subject);
    ReaderFoldersOnlyWithin(data, t);
    var k1 := IndexOf(t, data[b1]);
    var k2 := IndexOf(t, data[b2]);
    BothReadersSubject(t, k1, k2);
  }

  /** A table whose entries all come from a table of reader folders holds reader folders only. */
  lemma ReaderFoldersOnlyWithin(data: seq<LesionEntry>, t: seq<LesionEntry>)
    requires ReaderFoldersOnly(data) && forall k :: 0 <= k < |t| ==> t[k] in data
    ensures ReaderFoldersOnly(t)
  {
    forall k | 0 <= k < |t| ensures t[k].readerType == READER_1 || t[k].readerType == READER_2 {
      var j :| 0 <= j < |data| && data[j] == t[k];
    }
  }

  lemma ThreeNames()
    ensures |{READER_1, READER_2, NO_READER}| == 3
  {
    assert READER_1[7] != READER_2[7];
    assert |NO_READER| != |READER_1|;
  }

  /**
   * As written: a subject read by one reader contributes "No_Reader" to the
   * collected names, so together with a subject read by both readers the
   * names are three and `match_lesions` refuses the whole table.
   */
  lemma MixedReadersRejected(data: seq<LesionEntry>, ov: (Path, Path) -> bool, a: nat, b1: nat, b2: nat)
    requires ReaderFoldersOnly(data)
    requires a < |data| && forall k :: 0 <= k < |data| && data[k].subject == data[a].subject ==> data[k].readerType == data[a].readerType
    requires b1 < |data| && b2 < |data| && data[b1].subject == data[b2].subject
    requires data[b1].readerType == READER_1 && data[b2].readerType == READER_2
    ensures MatchOutcome(data, ov).Err?
  {
    var subjects := Distinct(SubjectColumn(data));
    if Collect(data, subjects, ov).Ok? {
      var names := Collect(data, subjects, ov).value.readerNames;
      assert SubjectColumn(data)[a] in subjects && SubjectColumn(data)[b1] in subjects;
      var ma := IndexOf(subjects, data[a].subject);
      var mb := IndexOf(subjects, data[b1].subject);
      CollectedSubject(data, subjects, ov, ma);
      CollectedSubject(data, subjects, ov, mb);
      OneReaderTable(data, a);
      TwoReaderTable(data, b1, b2);
      var ra := SubjectReaders(SubjectTable(data, data[a].subject)).value;
      var rb := SubjectReaders(SubjectTable(data, data[b1].subject)).value;
      assert ra.reader2 in names && rb.reader1 in names && rb.reader2 in names;
      ThreeNamesIn(names);
    }
  }

  /** A set that holds both reader names and the placeholder has more than two names. */
  lemma ThreeNamesIn(names: set<string>)
    requires READER_1 in names && READER_2 in names && NO_READER in names
    ensures |names| > 2
  {
    ThreeNames();
    SubsetCard({READER_1, READER_2, NO_READER}, names);
  }

  /** Every listed subject of a table of reader folders has one or two reader names, real ones first. */
  lemma ListedSubjectReaders(data: seq<LesionEntry>, m: nat)
    requires ReaderFoldersOnly(data) && m < |Distinct(SubjectColumn(data))|
    ensures var t := SubjectTable(data, Distinct(SubjectColumn(data))[m]);
      && SubjectReaders(t).Ok?
      && SubjectReaders(t).value.reader1 in {READER_1, READER_2}
      && SubjectReaders(t).value.reader2 in {READER_1, READER_2, NO_READER}
  {
    var t := SubjectTable(data, Distinct(SubjectColumn(data))[m]);
    SubjectListed(data, m);
    SubjectTableMembers(data, Distinct(SubjectColumn(data))[m]);
    ReaderFoldersOnlyWithin(data, t);
    ReaderFolderSubject(t);
  }

  /**
   * Corrected check: the placeholder "No_Reader" is not a reader, and the
   * table is accepted when the real reader names number one or two.
   */
  function MatchOutcomeIntended(data: seq<LesionEntry>, ov: (Path, Path) -> bool): Result<seq<MatchRow>, MatchError> {
    if data == [] then Err(MissingColumns)
    else match Collect(data, Distinct(SubjectColumn(data)), ov)
    case Err(e) => Err(e)
    case Ok(c) => IntendedCheck(c)
  }

  function IntendedCheck(c: Collection): Result<seq<MatchRow>, MatchError> {
    var readers := c.readerNames - {NO_READER};
    if |readers| == 0 || |readers| > 2 then Err(ReaderTypeCount(|readers|)) else Ok(c.rows)
  }

  /** The corrected check accepts every table the original accepts, with the same rows. */
  lemma IntendedAgrees(data: seq<LesionEntry>, ov: (Path, Path) -> bool)
    requires MatchOutcome(data, ov).Ok?
    ensures MatchOutcomeIntended(data, ov) == MatchOutcome(data, ov)
  {
    var c := Collect(data, Distinct(SubjectColumn(data)), ov).value;
    var readers := c.readerNames - {NO_READER};
    if NO_READER in c.readerNames {
      assert c.readerNames == readers + {NO_READER};
    } else {
      assert readers == c.readerNames;
    }
  }

  /**
   * The corrected check accepts every non-empty table the directory scan can
   * produce, whatever mix of one- and two-reader subjects it holds, and fails
   * only where a subject fails.
   */
  lemma IntendedAcceptsReaderFolders(data: seq<LesionEntry>, ov: (Path, Path) -> bool)
    requires data != [] && ReaderFoldersOnly(data)
    ensures MatchOutcomeIntended(data, ov).Ok?
  {
    var subjects := Distinct(SubjectColumn(data));
    var names := {READER_1, READER_2, NO_READER};
    forall k | 0 <= k < |subjects|
      ensures SubjectReaders(SubjectTable(data, subjects[k])).Ok?
      ensures SubjectReaders(SubjectTable(data, subjects[k])).value.reader1 in {READER_1, READER_2}
      ensures SubjectReaders(SubjectTable(data, subjects[k])).value.reader2 in names
    {
      ListedSubjectReaders(data, k);
    }
    CollectAllOk(data, subjects, ov, names);
    var c := Collect(data, subjects, ov).value;
    var readers := c.readerNames - {NO_READER};
    assert readers <= {READER_1, READER_2};
    SubsetCard(readers, {READER_1, READER_2});
    assert SubjectColumn(data)[0] in subjects;
    CollectedSubject(data, subjects, ov, 0);
    var r := SubjectReaders(SubjectTable(data, subjects[0])).value;
    assert r.reader1 in readers by {
      assert |NO_READER| != |READER_1| && |NO_READER| != |READER_2|;
    }
  }
}
