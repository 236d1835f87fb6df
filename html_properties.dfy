/**
 * What the static HTML export's data functions guarantee
 * (scripts/generate_static_html.py): the configuration dict mirrors the
 * sections, the subject list is the sorted set of subjects, the file name
 * pattern accepts exactly the names it describes, and the lesions dict
 * groups every accepted file under its lesion. The slice files the renderer
 * writes are listed under the subject they came from.
 */
module HtmlProperties {
  import opened Wrappers
  import opened Strings
  import opened Collections
  import opened SliceListing
  import opened LesionMatching
  import opened SliceRendering
  import opened StaticHtml
  import opened LesionTable
  import opened Readers

  // ---------------------------------------------------------------------------
  // config_to_dict
  // ---------------------------------------------------------------------------

  /** The configuration dict has a key for every section name and no other. */
  lemma ConfigSections(config: seq<Section>, name: string)
    ensures name in ConfigDict(config) <==> exists t :: 0 <= t < |config| && config[t].name == name
  {
    var ps := SectionPairs(config);
    MapOfKeys(ps, name);
    if exists t :: 0 <= t < |ps| && ps[t].0 == name {
      var t :| 0 <= t < |ps| && ps[t].0 == name;
      assert config[t].name == name;
    }
    if exists t :: 0 <= t < |config| && config[t].name == name {
      var t :| 0 <= t < |config| && config[t].name == name;
      assert ps[t].0 == name;
    }
  }

  /**
   * The dict of a section (the last one with its name) has a key for every
   * item key of that section and no other, and each key's value is its last
   * item's value.
   */
  lemma ConfigItems(config: seq<Section>, t: nat, key: string)
    requires t < |config| && forall u :: t < u < |config| ==> config[u].name != config[t].name
    ensures config[t].name in ConfigDict(config)
    ensures ConfigDict(config)[config[t].name] == MapOf(config[t].items)
    ensures key in ConfigDict(config)[config[t].name] <==>
      exists u :: 0 <= u < |config[t].items| && config[t].items[u].0 == key
  {
    var ps := SectionPairs(config);
    forall u | t < u < |ps| ensures ps[u].0 != ps[t].0 {
      assert ps[u].0 == config[u].name;
    }
    MapOfLastWins(ps, t);
    MapOfKeys(config[t].items, key);
  }

  // ---------------------------------------------------------------------------
  // get_subject_list
  // ---------------------------------------------------------------------------

  /** A subject is listed exactly when some ".jpg" entry names it. */
  lemma {:induction false} SubjectsSeenMembers(listing: seq<string>, n: nat, x: string)
    requires n <= |listing|
    ensures x in SubjectsSeen(listing, n) <==> exists t :: 0 <= t < n && IsJpg(listing[t]) && SubjectOf(listing[t]) == x
  {
    if n > 0 {
      SubjectsSeenMembers(listing, n - 1, x);
    }
  }

  // ---------------------------------------------------------------------------
  // The file name pattern of get_subject_data
  // ---------------------------------------------------------------------------

  predicate JpgEnd(e: string) {
    e == ".jpg" || e == ".jpg\n"
  }

  /** `<d>_<d2><e>`: what follows `<subject>_` in a matching name. */
  function Tail(d: string, d2: string, e: string): string {
    d + "_" + (d2 + e)
  }

  /** `name` is `<p><subject>_<d>_<d2><e>` with non-empty digit groups: what the pattern describes. */
  predicate NameFits(name: string, p: string, subject: string, d: string, d2: string, e: string) {
    && (p == "" || p == "sub-")
    && d != [] && AllDigits(d) && d2 != [] && AllDigits(d2) && JpgEnd(e)
    && name == (p + subject + "_") + Tail(d, d2, e)
  }

  lemma {:induction false} DigitRunOf(d: string, x: string)
    requires AllDigits(d) && (x == [] || !IsDigit(x[0]))
    ensures DigitRun(d + x) == |d|
  {
    if d == [] {
      assert d + x == x;
    } else {
      assert (d + x)[1..] == d[1..] + x;
      DigitRunOf(d[1..], x);
    }
  }

  lemma {:induction false} DigitRunDigits(s: string)
    ensures AllDigits(s[..DigitRun(s)])
    ensures DigitRun(s) < |s| ==> !IsDigit(s[DigitRun(s)])
  {
    if s != [] && IsDigit(s[0]) {
      DigitRunDigits(s[1..]);
      assert s[..DigitRun(s)] == [s[0]] + s[1..][..DigitRun(s[1..])];
    }
  }

  /** The tail of a fitting name matches, and its first group is `d`. */
  lemma TailGroupOf(d: string, d2: string, e: string)
    requires d != [] && AllDigits(d) && d2 != [] && AllDigits(d2) && JpgEnd(e)
    ensures TailGroup(Tail(d, d2, e)) == Some(d)
  {
    var s := Tail(d, d2, e);
    assert s == d + ("_" + (d2 + e));
    DigitRunOf(d, "_" + (d2 + e));
    assert s[|d|] == '_';
    assert s[|d| + 1..] == d2 + e;
    DigitRunOf(d2, e);
    assert (d2 + e)[|d2|..] == e;
    assert s[..|d|] == d;
  }

  /** A tail that matches splits into the two digit groups and the ending. */
  lemma TailGroupParts(s: string) returns (d2: string, e: string)
    requires TailGroup(s).Some?
    ensures var d := TailGroup(s).value;
      d != [] && AllDigits(d) && d2 != [] && AllDigits(d2) && JpgEnd(e) && s == Tail(d, d2, e)
  {
    var k := DigitRun(s);
    DigitRunDigits(s);
    var r := s[k + 1..];
    var j := DigitRun(r);
    DigitRunDigits(r);
    d2, e := r[..j], r[j..];
    assert r == d2 + e;
    assert s == s[..k] + "_" + r;
  }

  lemma NoSepInDigits(d: string)
    requires AllDigits(d)
    ensures '_' !in d
  {
    forall i | 0 <= i < |d| ensures d[i] != '_' {
      assert IsDigit(d[i]);
    }
  }

  /** Neither the second digit group nor the ending holds a '_'. */
  lemma NoSepInTail(d2: string, e: string)
    requires AllDigits(d2) && JpgEnd(e)
    ensures '_' !in d2 + e
  {
    forall i | 0 <= i < |d2 + e| ensures (d2 + e)[i] != '_' {
      if i < |d2| {
        assert IsDigit(d2[i]);
      }
    }
  }

  lemma PrefixOf(pre: string, rest: string)
    ensures StartsWith(pre + rest, pre) && (pre + rest)[|pre|..] == rest
  {
    assert (pre + rest)[..|pre|] == pre;
  }

  lemma SplitAtPrefix(name: string, pre: string)
    requires StartsWith(name, pre)
    ensures name == pre + name[|pre|..]
  {
  }

  lemma Regroup(h: string, d: string, t: string)
    ensures h + Tail(d, t, "") == (h + d) + "_" + t
  {
    assert t + "" == t;
  }

  /** Without a "sub-" of its own, a fitting name never matches with the optional group taken. */
  lemma PlainNameSkipsSub(name: string, subject: string, d: string, d2: string, e: string)
    requires NameFits(name, "", subject, d, d2, e)
    ensures !(StartsWith(name, "sub-" + subject + "_") && TailGroup(name[|"sub-" + subject + "_"|..]).Some?)
  {
    var withSub := "sub-" + subject + "_";
    if StartsWith(name, withSub) && TailGroup(name[|withSub|..]).Some? {
      var rest := name[|withSub|..];
      var d' := TailGroup(rest).value;
      var d2', e' := TailGroupParts(rest);
      SplitAtPrefix(name, withSub);
      assert Tail(d', d2', e') == Tail(d', d2' + e', "");
      Regroup(withSub, d', d2' + e');
      assert "" + subject == subject;
      assert Tail(d, d2, e) == Tail(d, d2 + e, "");
      Regroup(subject + "_", d, d2 + e);
      NoSepInTail(d2, e);
      NoSepInTail(d2', e');
      LastSepUnique(withSub + d', d2' + e', subject + "_" + d, d2 + e);
      NoSepInDigits(d);
      NoSepInDigits(d');
      LastSepUnique("sub-" + subject, d', subject, d);
      assert false;
    }
  }

  /** `match.group(1) or ''`: the "sub-" the pattern took, if any. */
  function MatchedSub(subject: string, name: string): string {
    var withSub := "sub-" + subject + "_";
    if StartsWith(name, withSub) && TailGroup(name[|withSub|..]).Some? then "sub-" else ""
  }

  /** A fitting name matches with its own prefix as the optional group, and its own first digit group. */
  lemma MatchedSubOf(name: string, p: string, subject: string, d: string, d2: string, e: string)
    requires NameFits(name, p, subject, d, d2, e)
    ensures MatchedSub(subject, name) == p
    ensures LesionNumber(subject, name) == Some(d)
  {
    TailGroupOf(d, d2, e);
    if p == "sub-" {
      PrefixOf("sub-" + subject + "_", Tail(d, d2, e));
    } else {
      PlainNameSkipsSub(name, subject, d, d2, e);
      assert "" + subject == subject;
      PrefixOf(subject + "_", Tail(d, d2, e));
    }
  }

  /** A name the pattern accepts fits it, with the first group as `d`. */
  lemma LesionNumberSound(subject: string, name: string) returns (p: string, d2: string, e: string)
    requires LesionNumber(subject, name).Some?
    ensures NameFits(name, p, subject, LesionNumber(subject, name).value, d2, e)
  {
    var withSub := "sub-" + subject + "_";
    var plain := subject + "_";
    if StartsWith(name, withSub) && TailGroup(name[|withSub|..]).Some? {
      d2, e := TailGroupParts(name[|withSub|..]);
      SplitAtPrefix(name, withSub);
      p := "sub-";
    } else {
      d2, e := TailGroupParts(name[|plain|..]);
      SplitAtPrefix(name, plain);
      assert "" + subject == subject;
      p := "";
    }
  }

  /**
   * The pattern `^(sub-)?<subject>_(\d+)_(\d+)\.jpg$` accepts a name with
   * first group `d` exactly when the name is the subject, optionally
   * preceded by "sub-", then '_', `d`, '_', a second digit group and ".jpg".
   */
  lemma LesionNumberMatches(subject: string, name: string, d: string)
    ensures LesionNumber(subject, name) == Some(d) <==> exists p, d2, e :: NameFits(name, p, subject, d, d2, e)
  {
    if LesionNumber(subject, name) == Some(d) {
      var p, d2, e := LesionNumberSound(subject, name);
    }
    if exists p, d2, e :: NameFits(name, p, subject, d, d2, e) {
      var p, d2, e :| NameFits(name, p, subject, d, d2, e);
      MatchedSubOf(name, p, subject, d, d2, e);
    }
  }
  // ---------------------------------------------------------------------------
  // The lesions dict of get_subject_data
  // ---------------------------------------------------------------------------

  /**
   * The lesion keys are the distinct keys of the matching files, in order of
   * first appearance, and exactly the keys of the lesions dict.
   */
  lemma SubjectDataIds(subject: string, listing: seq<string>, lookup: string -> Option<string>, k: string)
    ensures SubjectDataOf(subject, listing, lookup).ids == Distinct(PresentKeys(LesionKeys(subject, listing)))
    ensures k in SubjectDataOf(subject, listing, lookup).ids <==> k in SubjectDataOf(subject, listing, lookup).lesions
  {
    var keys := LesionKeys(subject, listing);
    GroupedIds(listing, keys, |listing|);
    GroupedKeys(listing, keys, |listing|, k);
    assert keys[..|listing|] == keys;
  }

  /**
   * A lesion is present exactly when some file matches with its key; its
   * slices are those files, sorted, and its note is the table's value for
   * the key, or '' when there is none.
   */
  lemma SubjectDataLesion(subject: string, listing: seq<string>, lookup: string -> Option<string>, k: string)
    ensures k in SubjectDataOf(subject, listing, lookup).lesions <==>
      exists t :: 0 <= t < |listing| && LesionKey(subject, listing[t]) == Some(k)
    ensures k in SubjectDataOf(subject, listing, lookup).lesions ==>
      && SortedBy(SubjectDataOf(subject, listing, lookup).lesions[k].slices, StrOrder())
      && multiset(SubjectDataOf(subject, listing, lookup).lesions[k].slices)
         == multiset(Selected(listing, LesionKeys(subject, listing), k, |listing|))
      && SubjectDataOf(subject, listing, lookup).lesions[k].multipleMatches == NoteFor(lookup, k)
  {
    var keys := LesionKeys(subject, listing);
    GroupedFiles(listing, keys, |listing|, k);
    SelectedNonEmpty(listing, keys, k, |listing|);
    if exists t :: 0 <= t < |listing| && LesionKey(subject, listing[t]) == Some(k) {
      var t :| 0 <= t < |listing| && LesionKey(subject, listing[t]) == Some(k);
      assert keys[t] == Some(k);
    }
    var g := Grouped(listing, keys, |listing|);
    if k in g.files {
      StrOrderIsOrder();
      SortBySorts(g.files[k], StrOrder());
    }
  }

  /** A file is among a lesion's slices exactly when it is listed and matches with that lesion's key. */
  lemma SubjectDataSlice(subject: string, listing: seq<string>, lookup: string -> Option<string>, k: string, name: string)
    requires k in SubjectDataOf(subject, listing, lookup).lesions
    ensures name in SubjectDataOf(subject, listing, lookup).lesions[k].slices <==>
      exists t :: 0 <= t < |listing| && listing[t] == name && LesionKey(subject, name) == Some(k)
  {
    var keys := LesionKeys(subject, listing);
    SubjectDataLesion(subject, listing, lookup, k);
    var sel := Selected(listing, keys, k, |listing|);
    SelectedMembers(listing, keys, k, |listing|, name);
    assert name in SubjectDataOf(subject, listing, lookup).lesions[k].slices <==> name in multiset(sel);
  }

  // ---------------------------------------------------------------------------
  // The slice files the renderer writes, as the export reads them back
  // ---------------------------------------------------------------------------

  /** The name of slice `i` of the `c`-th lesion of subject folder `folder`. */
  function RenderedName(folder: string, c: nat, i: nat): string {
    SliceFileName(LesionId(folder, c), i)
  }

  /** The folder without its "sub-" is the subject and the pattern's prefix. */
  lemma StripSubParts(folder: string) returns (p: string)
    ensures (p == "" || p == "sub-") && folder == p + StripSub(folder)
    ensures p == "sub-" <==> StartsWith(folder, "sub-")
  {
    p := if StartsWith(folder, "sub-") then "sub-" else "";
    if p == "sub-" {
      assert folder == folder[..4] + folder[4..];
    } else {
      assert folder == "" + folder;
    }
  }

  /** A rendered slice name fits the pattern for the folder's subject, with the folder's "sub-" as its prefix. */
  lemma RenderedNameShape(folder: string, c: nat, i: nat)
    ensures IsJpg(RenderedName(folder, c, i))
    ensures RenderedName(folder, c, i) == (folder + "_") + Tail(PadNum(c, 3), PadNum(i, 3), ".jpg")
  {
    var name := RenderedName(folder, c, i);
    assert name == (folder + "_" + PadNum(c, 3) + "_" + PadNum(i, 3)) + ".jpg";
    assert name[|name| - 4..] == ".jpg";
  }

  lemma RenderedFits(folder: string, c: nat, i: nat) returns (p: string)
    ensures IsJpg(RenderedName(folder, c, i))
    ensures RenderedName(folder, c, i) == (folder + "_") + Tail(PadNum(c, 3), PadNum(i, 3), ".jpg")
    ensures (p == "" || p == "sub-") && folder == p + StripSub(folder) && (p == "sub-" <==> StartsWith(folder, "sub-"))
    ensures NameFits(RenderedName(folder, c, i), p, StripSub(folder), PadNum(c, 3), PadNum(i, 3), ".jpg")
  {
    RenderedNameShape(folder, c, i);
    PadNumRoundTrip(c, 3);
    PadNumRoundTrip(i, 3);
    p := StripSubParts(folder);
  }

  /**
   * Every slice the renderer writes for a subject folder without '_' is
   * listed under that folder's subject (its "sub-" dropped) and matches the
   * pattern with the lesion counter as its lesion number.
   */
  lemma RenderedSliceListed(folder: string, c: nat, i: nat)
    requires '_' !in folder
    ensures IsJpg(RenderedName(folder, c, i))
    ensures SubjectOf(RenderedName(folder, c, i)) == StripSub(folder)
    ensures LesionNumber(StripSub(folder), RenderedName(folder, c, i)) == Some(PadNum(c, 3))
  {
    var p := RenderedFits(folder, c, i);
    FirstPart(folder, Tail(PadNum(c, 3), PadNum(i, 3), ".jpg"));
    MatchedSubOf(RenderedName(folder, c, i), p, StripSub(folder), PadNum(c, 3), PadNum(i, 3), ".jpg");
  }

  /**
   * As written, the lesion key of a rendered slice is
   * `<subject>_<counter>`: for a folder named "sub-..." this is not the
   * Lesion ID the slice was rendered for, so the lookup of the lesion's
   * 'Multiple Matches' value in the table by that key finds nothing.
   */
  lemma StaticKeyDropsSubPrefix(folder: string, c: nat, i: nat)
    requires '_' !in folder && StartsWith(folder, "sub-")
    ensures LesionKey(SubjectOf(RenderedName(folder, c, i)), RenderedName(folder, c, i))
      == Some(folder[4..] + "_" + PadNum(c, 3))
    ensures LesionKey(SubjectOf(RenderedName(folder, c, i)), RenderedName(folder, c, i)) != Some(LesionId(folder, c))
  {
    RenderedSliceListed(folder, c, i);
  }

  /** The key the export evidently means: the matched text up to the lesion number, "sub-" included. */
  function IntendedLesionKey(subject: string, name: string): Option<string> {
    match LesionNumber(subject, name)
    case None => None
    case Some(d) => Some(MatchedSub(subject, name) + subject + "_" + d)
  }

  /** With the prefix kept, every rendered slice is grouped under the Lesion ID it was rendered for. */
  lemma IntendedKeyIsLesionId(folder: string, c: nat, i: nat)
    requires '_' !in folder
    ensures IntendedLesionKey(SubjectOf(RenderedName(folder, c, i)), RenderedName(folder, c, i)) == Some(LesionId(folder, c))
  {
    var p := RenderedFits(folder, c, i);
    RenderedSliceListed(folder, c, i);
    MatchedSubOf(RenderedName(folder, c, i), p, StripSub(folder), PadNum(c, 3), PadNum(i, 3), ".jpg");
  }

  // ---------------------------------------------------------------------------
  // The comparison table lookup and its KeyError
  // ---------------------------------------------------------------------------

  /** Row `t` is the first row whose Lesion ID is `key`. */
  predicate FirstWithId(rows: seq<Row>, key: string, t: nat) {
    t < |rows| && RowHasId(rows[t], key) && forall u :: 0 <= u < t ==> !RowHasId(rows[u], key)
  }

  /**
   * Lines 46-47: the note of a key is the 'Multiple Matches' cell of the first
   * row whose Lesion ID is the key, and there is none when no row has it.
   */
  lemma {:induction false} FirstNoteIsFirstRow(rows: seq<Row>, key: string)
    ensures forall t: nat :: FirstWithId(rows, key, t) ==> FirstNote(rows, key) == NoteCell(rows[t])
    ensures (forall t :: 0 <= t < |rows| ==> !RowHasId(rows[t], key)) ==> FirstNote(rows, key) == None
  {
    if rows != [] {
      FirstNoteIsFirstRow(rows[1..], key);
      forall t: nat | FirstWithId(rows, key, t)
        ensures FirstNote(rows, key) == NoteCell(rows[t])
      {
        if t > 0 {
          assert !RowHasId(rows[0], key);
          assert FirstWithId(rows[1..], key, t - 1) by {
            forall u | 0 <= u < t - 1 ensures !RowHasId(rows[1..][u], key) {
              assert rows[1..][u] == rows[u + 1];
            }
          }
          assert rows[1..][t - 1] == rows[t];
        }
      }
      if forall t :: 0 <= t < |rows| ==> !RowHasId(rows[t], key) {
        assert !RowHasId(rows[0], key);
        forall t | 0 <= t < |rows[1..]| ensures !RowHasId(rows[1..][t], key) {
          assert rows[1..][t] == rows[t + 1];
        }
      }
    }
  }

  /** The columns the matcher writes to the comparison table (scripts/match_lesions.py, line 125). */
  const MATCHER_COLUMNS: seq<string> := [LESION_ID, UNDERLAY, READER_1, READER_2]

  /**
   * On the table the matcher writes, which has no 'Multiple Matches' column,
   * `get_subject_data` raises `KeyError` as soon as one listed file matches;
   * with no matching file it returns the subject with no lesions.
   */
  lemma MatcherTableRaises(subject: string, listing: seq<string>, rows: seq<Row>)
    ensures (exists t :: 0 <= t < |listing| && LesionKey(subject, listing[t]).Some?) ==>
      SubjectDataOutcome(subject, listing, Tsv(MATCHER_COLUMNS, rows)) == Err(KeyError(MULTIPLE_MATCHES))
    ensures (forall t :: 0 <= t < |listing| ==> LesionKey(subject, listing[t]).None?) ==>
      SubjectDataOutcome(subject, listing, Tsv(MATCHER_COLUMNS, rows)) == Ok(SubjectData(subject, [], map[]))
  {
    assert LESION_ID in MATCHER_COLUMNS;
    assert MULTIPLE_MATCHES !in MATCHER_COLUMNS by {
      assert MULTIPLE_MATCHES[0] == 'M';
      assert LESION_ID[0] == 'L' && UNDERLAY[0] == 'U' && READER_1[0] == 'R' && READER_2[0] == 'R';
    }
    AnyMatchIff(subject, listing);
    if forall t :: 0 <= t < |listing| ==> LesionKey(subject, listing[t]).None? {
      NoMatchNoLesions(subject, listing, TableLookup(Tsv(MATCHER_COLUMNS, rows)));
    }
  }

  /** Some listed file matches exactly when the pattern accepts one of the listed names. */
  lemma AnyMatchIff(subject: string, listing: seq<string>)
    ensures AnyMatch(subject, listing) <==> exists t :: 0 <= t < |listing| && LesionKey(subject, listing[t]).Some?
  {
    var keys := LesionKeys(subject, listing);
    forall t | 0 <= t < |listing| ensures keys[t] == LesionKey(subject, listing[t]) {
    }
  }

  /** A listing with no matching file gives no lesions. */
  lemma NoMatchNoLesions(subject: string, listing: seq<string>, lookup: string -> Option<string>)
    requires forall t :: 0 <= t < |listing| ==> LesionKey(subject, listing[t]).None?
    ensures SubjectDataOf(subject, listing, lookup) == SubjectData(subject, [], map[])
  {
    var d := SubjectDataOf(subject, listing, lookup);
    forall k | k in d.lesions ensures false {
      SubjectDataLesion(subject, listing, lookup, k);
    }
    assert d.lesions == map[];
    if d.ids != [] {
      SubjectDataIds(subject, listing, lookup, d.ids[0]);
    }
  }

  /**
   * With both columns present, the note of a lesion is the 'Multiple Matches'
   * cell of the first row carrying its Lesion ID, or '' when that cell is NaN
   * or no row carries it.
   */
  lemma TableNote(subject: string, listing: seq<string>, tsv: Tsv, k: string, t: nat)
    requires NoteColumns(tsv) && SubjectDataOutcome(subject, listing, tsv).Ok?
    requires k in SubjectDataOutcome(subject, listing, tsv).value.lesions && FirstWithId(tsv.rows, k, t)
    ensures SubjectDataOutcome(subject, listing, tsv).value.lesions[k].multipleMatches
      == if MULTIPLE_MATCHES in tsv.rows[t] then tsv.rows[t][MULTIPLE_MATCHES] else ""
  {
    SubjectDataLesion(subject, listing, TableLookup(tsv), k);
    FirstNoteIsFirstRow(tsv.rows, k);
  }
}
