/**
 * What the annotation viewer's server side guarantees (scripts/app.py and
 * app.py): the upsert overwrites exactly the rows of a (lesion_id,
 * subject_id) key or appends one, leaves every other row alone, and saving
 * the same annotations twice changes nothing; the subject list and the
 * lesion groups read back the slice files the renderer writes.
 */
module AppProperties {
  import opened Wrappers
  import opened Strings
  import opened Collections
  import opened SliceListing
  import opened LesionMatching
  import opened SliceRendering
  import opened AnnotationApp

  // ---------------------------------------------------------------------------
  // One upsert
  // ---------------------------------------------------------------------------

  /**
   * One upsert keeps every row in place and sets the annotation of each row
   * with the key; only when there is none does it append exactly one row.
   */
  lemma UpsertRows(rows: seq<Row>, lesionId: string, subjectId: string, annotation: string)
    ensures |Upsert(rows, lesionId, subjectId, annotation)| == |rows| + (if HasRow(rows, lesionId, subjectId) then 0 else 1)
    ensures forall i :: 0 <= i < |rows| ==>
      Upsert(rows, lesionId, subjectId, annotation)[i]
      == if Matches(rows[i], lesionId, subjectId) then rows[i].(annotation := annotation) else rows[i]
    ensures !HasRow(rows, lesionId, subjectId) ==>
      Upsert(rows, lesionId, subjectId, annotation)[|rows|] == Row(lesionId, subjectId, annotation)
  {
  }

  /** After one upsert the key has a row, and every row with the key holds the new annotation. */
  lemma UpsertSets(rows: seq<Row>, lesionId: string, subjectId: string, annotation: string)
    ensures HasRow(Upsert(rows, lesionId, subjectId, annotation), lesionId, subjectId)
    ensures forall i :: (0 <= i < |Upsert(rows, lesionId, subjectId, annotation)|
      && Matches(Upsert(rows, lesionId, subjectId, annotation)[i], lesionId, subjectId)
      ==> Upsert(rows, lesionId, subjectId, annotation)[i].annotation == annotation)
  {
    UpsertRows(rows, lesionId, subjectId, annotation);
    var u := Upsert(rows, lesionId, subjectId, annotation);
    if HasRow(rows, lesionId, subjectId) {
      var i :| 0 <= i < |rows| && Matches(rows[i], lesionId, subjectId);
      assert Matches(u[i], lesionId, subjectId);
    } else {
      assert Matches(u[|rows|], lesionId, subjectId);
    }
  }

  /** The rows without the key, in order. */
  function Unmatched(rows: seq<Row>, lesionId: string, subjectId: string): seq<Row> {
    if rows == [] then []
    else
      Unmatched(rows[..|rows| - 1], lesionId, subjectId)
      + if Matches(rows[|rows| - 1], lesionId, subjectId) then [] else [rows[|rows| - 1]]
  }

  lemma {:induction false} UnmatchedOfSet(rows: seq<Row>, lesionId: string, subjectId: string, annotation: string)
    ensures Unmatched(SetMatching(rows, lesionId, subjectId, annotation), lesionId, subjectId)
      == Unmatched(rows, lesionId, subjectId)
  {
    if rows != [] {
      var n := |rows| - 1;
      assert SetMatching(rows, lesionId, subjectId, annotation)[..n] == SetMatching(rows[..n], lesionId, subjectId, annotation);
      UnmatchedOfSet(rows[..n], lesionId, subjectId, annotation);
    }
  }

  /** An upsert leaves the rows of every other key as they were, in the same order. */
  lemma UpsertKeepsOthers(rows: seq<Row>, lesionId: string, subjectId: string, annotation: string)
    ensures Unmatched(Upsert(rows, lesionId, subjectId, annotation), lesionId, subjectId)
      == Unmatched(rows, lesionId, subjectId)
  {
    if HasRow(rows, lesionId, subjectId) {
      UnmatchedOfSet(rows, lesionId, subjectId, annotation);
    } else {
      var u := rows + [Row(lesionId, subjectId, annotation)];
      assert u[..|u| - 1] == rows;
    }
  }

  // ---------------------------------------------------------------------------
  // The whole loop
  // ---------------------------------------------------------------------------

  /** A row of the subject whose lesion id is among the request's keys. */
  predicate Keyed(r: Row, subjectId: string, m: map<string, string>) {
    r.subjectId == subjectId && r.lesionId in m
  }

  /**
   * `u` is `rows` after upserting the annotations `m` of subject
   * `subjectId`: the first `|rows|` rows keep their keys and, unless keyed,
   * their annotation; the added rows are keyed; every keyed row holds its
   * key's annotation; every key has a row; and an added row is the first
   * row of its key, so the added rows have distinct lesion ids.
   */
  predicate UpsertedFrom(u: seq<Row>, rows: seq<Row>, subjectId: string, m: map<string, string>) {
    && |u| >= |rows|
    && (forall i :: 0 <= i < |rows| ==>
          u[i].lesionId == rows[i].lesionId && u[i].subjectId == rows[i].subjectId
          && (!Keyed(rows[i], subjectId, m) ==> u[i] == rows[i]))
    && (forall i :: |rows| <= i < |u| ==> Keyed(u[i], subjectId, m))
    && (forall i, j :: 0 <= i < j < |u| && |rows| <= j ==> !Matches(u[i], u[j].lesionId, u[j].subjectId))
    && (forall i, j :: |rows| <= i < j < |u| ==> u[i].lesionId != u[j].lesionId)
    && (forall i :: 0 <= i < |u| && Keyed(u[i], subjectId, m) ==> u[i].annotation == m[u[i].lesionId])
    && (forall l :: l in m ==> HasRow(u, l, subjectId))
  }

  lemma UpsertStep(u: seq<Row>, rows: seq<Row>, subjectId: string, m: map<string, string>, l: string, v: string)
    requires UpsertedFrom(u, rows, subjectId, m)
    ensures UpsertedFrom(Upsert(u, l, subjectId, v), rows, subjectId, m[l := v])
  {
    UpsertRows(u, l, subjectId, v);
    UpsertStepAnnotations(u, rows, subjectId, m, l, v);
    UpsertStepKeys(u, subjectId, m, l, v);
    UpsertStepFirst(u, |rows|, subjectId, l, v);
  }

  /** After one more upsert every keyed row holds its key's latest annotation. */
  lemma UpsertStepAnnotations(u: seq<Row>, rows: seq<Row>, subjectId: string, m: map<string, string>, l: string, v: string)
    requires forall i :: 0 <= i < |u| && Keyed(u[i], subjectId, m) ==> u[i].annotation == m[u[i].lesionId]
    ensures var w := Upsert(u, l, subjectId, v);
      forall i :: 0 <= i < |w| && Keyed(w[i], subjectId, m[l := v]) ==> w[i].annotation == m[l := v][w[i].lesionId]
  {
    var m' := m[l := v];
    var w := Upsert(u, l, subjectId, v);
    UpsertRows(u, l, subjectId, v);
    UpsertSets(u, l, subjectId, v);
    forall i | 0 <= i < |w| && Keyed(w[i], subjectId, m')
      ensures w[i].annotation == m'[w[i].lesionId]
    {
      if !Matches(w[i], l, subjectId) {
        assert i < |u| && w[i] == u[i];
      }
    }
  }

  /** After one more upsert every key, old or new, has a row. */
  lemma UpsertStepKeys(u: seq<Row>, subjectId: string, m: map<string, string>, l: string, v: string)
    requires forall k :: k in m ==> HasRow(u, k, subjectId)
    ensures forall k :: k in m[l := v] ==> HasRow(Upsert(u, l, subjectId, v), k, subjectId)
  {
    var w := Upsert(u, l, subjectId, v);
    UpsertRows(u, l, subjectId, v);
    UpsertSets(u, l, subjectId, v);
    forall k | k in m[l := v]
      ensures HasRow(w, k, subjectId)
    {
      if k != l {
        var j :| 0 <= j < |u| && Matches(u[j], k, subjectId);
        assert Matches(w[j], k, subjectId);
      }
    }
  }

  /** An upsert appends a row only for a key no earlier row has, and keeps the keys of the others. */
  lemma UpsertStepFirst(u: seq<Row>, n: nat, subjectId: string, l: string, v: string)
    requires n <= |u| && forall i, j :: 0 <= i < j < |u| && n <= j ==> !Matches(u[i], u[j].lesionId, u[j].subjectId)
    ensures var w := Upsert(u, l, subjectId, v);
      forall i, j :: 0 <= i < j < |w| && n <= j ==> !Matches(w[i], w[j].lesionId, w[j].subjectId)
  {
    var w := Upsert(u, l, subjectId, v);
    UpsertRows(u, l, subjectId, v);
    forall i, j | 0 <= i < j < |w| && n <= j
      ensures !Matches(w[i], w[j].lesionId, w[j].subjectId)
    {
      if j < |u| {
        assert w[i].lesionId == u[i].lesionId && w[i].subjectId == u[i].subjectId;
        assert w[j].lesionId == u[j].lesionId && w[j].subjectId == u[j].subjectId;
      } else {
        assert w[j] == Row(l, subjectId, v) && w[i] == u[i];
      }
    }
  }

  /** The save loop upserts every annotation, the last value of a repeated lesion id winning. */
  lemma {:induction false} UpsertAllFrom(rows: seq<Row>, subjectId: string, items: seq<(string, string)>)
    ensures UpsertedFrom(UpsertAll(rows, subjectId, items), rows, subjectId, MapOf(items))
  {
    if items != [] {
      var n := |items| - 1;
      UpsertAllFrom(rows, subjectId, items[..n]);
      UpsertStep(UpsertAll(rows, subjectId, items[..n]), rows, subjectId, MapOf(items[..n]), items[n].0, items[n].1);
    }
  }

  /** When every lesion id of the request already has a row, the loop appends nothing. */
  lemma {:induction false} UpsertAllInPlace(rows: seq<Row>, subjectId: string, items: seq<(string, string)>)
    requires forall l :: l in MapOf(items) ==> HasRow(rows, l, subjectId)
    ensures |UpsertAll(rows, subjectId, items)| == |rows|
  {
    if items != [] {
      var n := |items| - 1;
      var prev := UpsertAll(rows, subjectId, items[..n]);
      UpsertAllInPlace(rows, subjectId, items[..n]);
      UpsertAllFrom(rows, subjectId, items[..n]);
      assert items[n].0 in MapOf(items);
      assert HasRow(rows, items[n].0, subjectId);
      var j :| 0 <= j < |rows| && Matches(rows[j], items[n].0, subjectId);
      assert Matches(prev[j], items[n].0, subjectId);
      UpsertRows(prev, items[n].0, subjectId, items[n].1);
    }
  }

  /** Saving the same annotations again leaves the table as it is. */
  lemma UpsertAllIdempotent(rows: seq<Row>, subjectId: string, items: seq<(string, string)>)
    ensures UpsertAll(UpsertAll(rows, subjectId, items), subjectId, items) == UpsertAll(rows, subjectId, items)
  {
    var m := MapOf(items);
    var u1 := UpsertAll(rows, subjectId, items);
    var u2 := UpsertAll(u1, subjectId, items);
    UpsertAllFrom(rows, subjectId, items);
    UpsertAllInPlace(u1, subjectId, items);
    UpsertAllFrom(u1, subjectId, items);
    forall i | 0 <= i < |u1|
      ensures u2[i] == u1[i]
    {
      if Keyed(u1[i], subjectId, m) {
        assert u2[i].annotation == u1[i].annotation;
      }
    }
  }

  /**
   * A request without a file to read starts from an empty table: the table
   * written has the subject's rows for exactly the request's lesion ids,
   * each holding that id's annotation.
   */
  lemma SavedFromMissingFile(subjectId: string, items: seq<(string, string)>)
    requires subjectId != "" && items != []
    ensures Saved(Some(subjectId), Some(items), None).Ok?
    ensures forall i :: 0 <= i < |Saved(Some(subjectId), Some(items), None).value| ==>
      var r := Saved(Some(subjectId), Some(items), None).value[i];
      r.subjectId == subjectId && r.lesionId in MapOf(items) && r.annotation == MapOf(items)[r.lesionId]
    ensures forall l :: l in MapOf(items) ==> HasRow(Saved(Some(subjectId), Some(items), None).value, l, subjectId)
  {
    UpsertAllFrom([], subjectId, items);
  }

  // ---------------------------------------------------------------------------
  // Listing subjects and lesions
  // ---------------------------------------------------------------------------

  /** A subject is listed exactly when some ".jpg" entry starts with it and a '_' or the name's end. */
  lemma {:induction false} PrefixesSeenMembers(listing: seq<string>, n: nat, x: string)
    requires n <= |listing|
    ensures x in PrefixesSeen(listing, n) <==>
      exists t :: 0 <= t < n && EndsWith(listing[t], ".jpg") && NamePrefix(listing[t]) == x
  {
    if n > 0 {
      PrefixesSeenMembers(listing, n - 1, x);
    }
  }

  /** A slice file of subject folder `folder` (without '_') is listed under that folder's name. */
  lemma RenderedPrefix(folder: string, c: nat, i: int)
    requires '_' !in folder
    ensures EndsWith(SliceFileName(LesionId(folder, c), i), ".jpg")
    ensures NamePrefix(SliceFileName(LesionId(folder, c), i)) == folder
  {
    var name := SliceFileName(LesionId(folder, c), i);
    var rest := ZFill(Decimal(c), 3) + "_" + FormatInt(i, 3) + ".jpg";
    assert name == folder + "_" + rest;
    FirstPart(folder, rest);
    assert name[|name| - 4..] == ".jpg";
  }

  lemma NoSepInFormatted(i: int)
    ensures '_' !in FormatInt(i, 3) + ".jpg"
  {
    var f := FormatInt(i, 3);
    var p := if i >= 0 then PadNum(i, 3) else PadNum(-i, 2);
    PadNumRoundTrip(if i >= 0 then i else -i, if i >= 0 then 3 else 2);
    forall k | 0 <= k < |f + ".jpg"| ensures (f + ".jpg")[k] != '_' {
      if i >= 0 && k < |f| {
        assert IsDigit(p[k]);
      } else if i < 0 && 0 < k < |f| {
        assert IsDigit(p[k - 1]);
      }
    }
  }

  /** The lesion key of a slice file: the text before its last '_', which is the Lesion ID again. */
  lemma AppKeyOfSlice(subject: string, lesionId: string, i: int)
    requires StartsWith(lesionId, subject)
    ensures AppKey(subject, SliceFileName(lesionId, i)) == Some(lesionId)
  {
    var last := FormatInt(i, 3) + ".jpg";
    var name := SliceFileName(lesionId, i);
    assert name == lesionId + "_" + last;
    assert name[..|subject|] == lesionId[..|subject|];
    assert name[|name| - 4..] == ".jpg";
    NoSepInFormatted(i);
    KeyBeforeLastSep(lesionId, last);
  }

  /**
   * As written, the page of a subject also lists the lesions of every other
   * subject whose name starts with it: "sub-1" collects the slices of
   * "sub-10".
   */
  lemma PrefixSubjectCollected(subject: string, other: string, c: nat, i: int)
    requires StartsWith(other, subject)
    ensures AppKey(subject, SliceFileName(LesionId(other, c), i)) == Some(LesionId(other, c))
  {
    assert LesionId(other, c)[..|subject|] == other[..|subject|];
    AppKeyOfSlice(subject, LesionId(other, c), i);
  }

  /** "sub-1" and "sub-10": the smallest pair of the naming scheme that shows it. */
  lemma Sub1CollectsSub10(c: nat, i: int)
    ensures AppKey("sub-1", SliceFileName(LesionId("sub-10", c), i)) == Some(LesionId("sub-10", c))
  {
    assert StartsWith("sub-10", "sub-1");
    PrefixSubjectCollected("sub-1", "sub-10", c, i);
  }

  /** The evident intent: a file belongs to the subject whose name comes before its first '_'. */
  function IntendedAppKey(subject: string, name: string): Option<string> {
    if StartsWith(name, subject + "_") && EndsWith(name, ".jpg") then
      var parts := Split(name, '_');
      Some(Join(parts[..|parts| - 1], '_'))
    else None
  }

  /** With the '_' in the test, a subject's page lists the slices of its own folder and of no other. */
  lemma IntendedAppKeyOwnSubject(subject: string, folder: string, c: nat, i: int)
    requires '_' !in subject && '_' !in folder
    ensures IntendedAppKey(subject, SliceFileName(LesionId(folder, c), i)).Some? <==> folder == subject
    ensures folder == subject ==> IntendedAppKey(subject, SliceFileName(LesionId(folder, c), i)) == Some(LesionId(folder, c))
  {
    if folder == subject {
      IntendedKeyOwnSlice(subject, c, i);
    } else {
      IntendedKeyOtherFolder(subject, folder, c, i);
    }
  }

  /** A slice of the subject's own folder is listed under its Lesion ID. */
  lemma IntendedKeyOwnSlice(subject: string, c: nat, i: int)
    ensures IntendedAppKey(subject, SliceFileName(LesionId(subject, c), i)) == Some(LesionId(subject, c))
  {
    var lesionId := LesionId(subject, c);
    var last := FormatInt(i, 3) + ".jpg";
    var name := SliceFileName(lesionId, i);
    assert name == lesionId + "_" + last;
    assert name == subject + "_" + (ZFill(Decimal(c), 3) + "_" + last);
    assert name[..|subject| + 1] == subject + "_";
    assert name[|name| - 4..] == ".jpg";
    assert StartsWith(name, subject + "_") && EndsWith(name, ".jpg");
    NoSepInFormatted(i);
    KeyBeforeLastSep(lesionId, last);
  }

  /** A slice of another '_'-free folder is not listed. */
  lemma IntendedKeyOtherFolder(subject: string, folder: string, c: nat, i: int)
    requires '_' !in subject && '_' !in folder && folder != subject
    ensures IntendedAppKey(subject, SliceFileName(LesionId(folder, c), i)).None?
  {
    var name := SliceFileName(LesionId(folder, c), i);
    RenderedPrefix(folder, c, i);
    if StartsWith(name, subject + "_") {
      assert name == subject + "_" + name[|subject| + 1..];
      FirstPart(subject, name[|subject| + 1..]);
      assert false;
    }
  }

  // ---------------------------------------------------------------------------
  // The lesions dict of get_subject_data
  // ---------------------------------------------------------------------------

  /**
   * A lesion is present exactly when some listed file has its key; its list
   * is those files, sorted; and the lesion keys are listed once each, in
   * order of first appearance.
   */
  lemma AppSubjectDataLesion(subject: string, listing: seq<string>, k: string)
    ensures AppSubjectDataOf(subject, listing).ids == Distinct(PresentKeys(AppKeys(subject, listing)))
    ensures k in AppSubjectDataOf(subject, listing).lesions <==>
      exists t :: 0 <= t < |listing| && AppKey(subject, listing[t]) == Some(k)
    ensures k in AppSubjectDataOf(subject, listing).lesions ==>
      && SortedBy(AppSubjectDataOf(subject, listing).lesions[k], StrOrder())
      && multiset(AppSubjectDataOf(subject, listing).lesions[k])
         == multiset(Selected(listing, AppKeys(subject, listing), k, |listing|))
  {
    var keys := AppKeys(subject, listing);
    GroupedIds(listing, keys, |listing|);
    assert keys[..|listing|] == keys;
    GroupedFiles(listing, keys, |listing|, k);
    SelectedNonEmpty(listing, keys, k, |listing|);
    if exists t :: 0 <= t < |listing| && AppKey(subject, listing[t]) == Some(k) {
      var t :| 0 <= t < |listing| && AppKey(subject, listing[t]) == Some(k);
      assert keys[t] == Some(k);
    }
    var g := Grouped(listing, keys, |listing|);
    if k in g.files {
      StrOrderIsOrder();
      SortBySorts(g.files[k], StrOrder());
    }
  }
}
