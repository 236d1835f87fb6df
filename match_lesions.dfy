/**
 * Cross-reader lesion matching (scripts/match_lesions.py).
 *
 * `process_subject` walks the reader-1 lesions in order; for each one it
 * compares it with every reader-2 lesion not yet used, writes one row per
 * overlap (all sharing one lesion id), or one row with an empty Reader_2 field
 * when nothing overlaps; reader-2 lesions never used get rows of their own at
 * the end. Loading the lesion volumes is abstracted into an overlap predicate
 * `ov` on lesion paths; `CompareLesions` is the test the source applies to the
 * loaded volumes.
 *
 * The rows are specified through their "origins": which reader-1 and/or
 * reader-2 lesion (by position in its reader's list) a row describes, and
 * which counter its lesion id carries.
 */
module LesionMatching {
  import opened Wrappers
  import opened Strings
  import opened Collections
  import opened Readers

  type Path = string

  /** One row of the directory table: one lesion file of one reader of one subject. */
  datatype LesionEntry = LesionEntry(
    subject: string, readerType: string, basename: string, path: Path, underlay: Path)

  /** One row of the match table: Lesion ID, Underlay, Reader_1, Reader_2 ("" when empty). */
  datatype MatchRow = MatchRow(lesionId: string, underlay: Path, reader1: Path, reader2: Path)

  /** The two reader names `process_subject` uses; the second may be "No_Reader". */
  datatype ReaderNames = ReaderNames(reader1: string, reader2: string)

  /** What `process_subject` returns: the rows and the two reader names it used. */
  datatype SubjectResult = SubjectResult(rows: seq<MatchRow>, reader1: string, reader2: string)

  datatype MatchError =
    | TooManyReaderTypes(found: nat)   // one subject has more than two reader types
    | NoLesions                        // an empty subject table: nothing to unpack
    | ReaderTypeCount(found: nat)      // the reader names over all subjects are not exactly two
    | MissingColumns                   // no lesion file found: the directory table has no columns

  // ---------------------------------------------------------------------------
  // compare_lesions
  // ---------------------------------------------------------------------------

  /** `np.max` of a non-empty array. */
  function MaxValue(s: seq<int>): (m: int)
    requires |s| > 0
    ensures forall i :: 0 <= i < |s| ==> s[i] <= m
    ensures exists i :: 0 <= i < |s| && s[i] == m
  {
    if |s| == 1 then s[0]
    else
      var rest := MaxValue(s[1..]);
      assert forall i :: 1 <= i < |s| ==> s[i] == s[1..][i - 1];
      if s[0] >= rest then s[0] else rest
  }

  /** `compare_lesions`: the largest voxel of the element-wise sum exceeds 1. */
  function CompareLesions(a: seq<int>, b: seq<int>): (overlap: bool)
    requires |a| == |b| && |a| > 0
    ensures overlap <==> exists v :: 0 <= v < |a| && a[v] + b[v] > 1
  {
    var combined := seq(|a|, v requires 0 <= v < |a| => a[v] + b[v]);
    assert forall v :: 0 <= v < |a| ==> combined[v] == a[v] + b[v];
    MaxValue(combined) > 1
  }

  predicate IsBinary(a: seq<int>) {
    forall v :: 0 <= v < |a| ==> a[v] == 0 || a[v] == 1
  }

  /** The test does not depend on which lesion is given first. */
  lemma CompareLesionsSymmetric(a: seq<int>, b: seq<int>)
    requires |a| == |b| && |a| > 0
    ensures CompareLesions(a, b) == CompareLesions(b, a)
  {
    if CompareLesions(a, b) {
      var v :| 0 <= v < |a| && a[v] + b[v] > 1;
      assert b[v] + a[v] > 1;
    }
  }

  /** On 0/1 masks the test is "some voxel is foreground in both". */
  lemma CompareBinaryMasks(a: seq<int>, b: seq<int>)
    requires |a| == |b| && |a| > 0
    requires IsBinary(a) && IsBinary(b)
    ensures CompareLesions(a, b) <==> exists v :: 0 <= v < |a| && a[v] == 1 && b[v] == 1
  {
    if CompareLesions(a, b) {
      var v :| 0 <= v < |a| && a[v] + b[v] > 1;
      assert a[v] == 1 && b[v] == 1;
    }
  }

  // ---------------------------------------------------------------------------
  // The rows of one subject, by origin
  // ---------------------------------------------------------------------------

  /** Which lesions a row describes: reader-1 position `i`, reader-2 position `j`. */
  datatype Origin =
    | Paired(i: nat, j: nat)                 // reader-1 lesion i matched with reader-2 lesion j
    | Reader1Only(i: nat)                    // reader-1 lesion i, nothing left to match
    | Reader2Only(j: nat, counter: nat)      // reader-2 lesion j left over, with its own counter

  predicate ValidOrigin(o: Origin, n1: nat, n2: nat) {
    match o
    case Paired(i, j) => i < n1 && j < n2
    case Reader1Only(i) => i < n1
    case Reader2Only(j, _) => j < n2
  }

  /** Some reader-1 lesion overlaps reader-2 lesion `j`. */
  predicate Overlapped(r1: seq<Path>, r2: seq<Path>, ov: (Path, Path) -> bool, j: nat)
    requires j < |r2|
  {
    exists i :: 0 <= i < |r1| && ov(r1[i], r2[j])
  }

  /** Reader-1 lesion `i` is the first reader-1 lesion that overlaps reader-2 lesion `j`. */
  predicate FirstOverlap(r1: seq<Path>, r2: seq<Path>, ov: (Path, Path) -> bool, i: nat, j: nat)
    requires i < |r1| && j < |r2|
  {
    ov(r1[i], r2[j]) && forall i' :: 0 <= i' < i ==> !ov(r1[i'], r2[j])
  }

  /** The reader-2 lesions among the first `n` whose first overlapping reader-1 lesion is `i`. */
  function Claims(r1: seq<Path>, r2: seq<Path>, ov: (Path, Path) -> bool, i: nat, n: nat): (c: seq<Origin>)
    requires i < |r1| && n <= |r2|
    ensures forall k :: 0 <= k < |c| ==> c[k].Paired? && c[k].i == i && c[k].j < n
  {
    if n == 0 then []
    else Claims(r1, r2, ov, i, n - 1) + (if FirstOverlap(r1, r2, ov, i, n - 1) then [Paired(i, n - 1)] else [])
  }

  /** The origins of the rows written for reader-1 lesion `i`. */
  function Block(r1: seq<Path>, r2: seq<Path>, ov: (Path, Path) -> bool, i: nat): seq<Origin>
    requires i < |r1|
  {
    var c := Claims(r1, r2, ov, i, |r2|);
    if c == [] then [Reader1Only(i)] else c
  }

  /** The origins of the rows written for the first `n` reader-1 lesions. */
  function Reader1Part(r1: seq<Path>, r2: seq<Path>, ov: (Path, Path) -> bool, n: nat): seq<Origin>
    requires n <= |r1|
  {
    if n == 0 then [] else Reader1Part(r1, r2, ov, n - 1) + Block(r1, r2, ov, n - 1)
  }

  /** The origins of the leftover rows for the first `n` reader-2 lesions; counters continue after |r1|. */
  function Leftovers(r1: seq<Path>, r2: seq<Path>, ov: (Path, Path) -> bool, n: nat): seq<Origin>
    requires n <= |r2|
  {
    if n == 0 then []
    else
      var p := Leftovers(r1, r2, ov, n - 1);
      p + (if !Overlapped(r1, r2, ov, n - 1) then [Reader2Only(n - 1, |r1| + 1 + |p|)] else [])
  }

  function Origins(r1: seq<Path>, r2: seq<Path>, ov: (Path, Path) -> bool): seq<Origin> {
    Reader1Part(r1, r2, ov, |r1|) + Leftovers(r1, r2, ov, |r2|)
  }

  /** The lesion counter a row carries: once per reader-1 lesion, then once per leftover. */
  function Counter(o: Origin): nat {
    match o
    case Paired(i, _) => i + 1
    case Reader1Only(i) => i + 1
    case Reader2Only(_, c) => c
  }

  /** `f'{subject}_{str(counter).zfill(3)}'`. */
  function LesionId(subject: string, counter: nat): string {
    subject + "_" + ZFill(Decimal(counter), 3)
  }

  /** The row an origin stands for (origins only name existing lesions, see `OriginsValid`). */
  function RowOf(subject: string, underlay: Path, r1: seq<Path>, r2: seq<Path>, o: Origin): MatchRow {
    MatchRow(
      LesionId(subject, Counter(o)),
      underlay,
      if o.Reader2Only? || o.i >= |r1| then "" else r1[o.i],
      if o.Reader1Only? || o.j >= |r2| then "" else r2[o.j])
  }

  function Rows(subject: string, underlay: Path, r1: seq<Path>, r2: seq<Path>, os: seq<Origin>): seq<MatchRow> {
    seq(|os|, k requires 0 <= k < |os| => RowOf(subject, underlay, r1, r2, os[k]))
  }

  /** The rows `process_subject` writes for one subject, given its two ordered lesion lists. */
  function SubjectRows(subject: string, underlay: Path, r1: seq<Path>, r2: seq<Path>, ov: (Path, Path) -> bool): seq<MatchRow> {
    Rows(subject, underlay, r1, r2, Origins(r1, r2, ov))
  }

  // ---------------------------------------------------------------------------
  // process_subject
  // ---------------------------------------------------------------------------

  function ReaderTypes(data: seq<LesionEntry>): seq<string> {
    seq(|data|, k requires 0 <= k < |data| => data[k].readerType)
  }

  /** `subject_data[subject_data['Lesion Type'] == reader]['Lesion Full Path'].tolist()`. */
  function PathsOf(data: seq<LesionEntry>, reader: string): (paths: seq<Path>)
    ensures |paths| <= |data|
  {
    if data == [] then []
    else
      var last := data[|data| - 1];
      PathsOf(data[..|data| - 1], reader) + (if last.readerType == reader then [last.path] else [])
  }

  /** The reader types a subject's table holds, in order of first appearance, with the second one filled in. */
  function SubjectReaders(data: seq<LesionEntry>): Result<ReaderNames, MatchError> {
    var types := Distinct(ReaderTypes(data));
    if |types| > 2 then Err(TooManyReaderTypes(|types|))
    else if |types| == 0 then Err(NoLesions)
    else Ok(ReaderNames(types[0], if |types| == 1 then NO_READER else types[1]))
  }

  /** The rows of a subject's table for the two reader names chosen. */
  function SubjectRowsFor(data: seq<LesionEntry>, names: ReaderNames, ov: (Path, Path) -> bool): seq<MatchRow>
    requires data != []
  {
    var r1 := PathsOf(data, names.reader1);
    var r2 := if names.reader2 != NO_READER then PathsOf(data, names.reader2) else [];
    SubjectRows(data[0].subject, data[0].underlay, r1, r2, ov)
  }

  /** What `process_subject` returns for one subject's table (a raised exception becomes `Err`). */
  function SubjectOutcome(data: seq<LesionEntry>, ov: (Path, Path) -> bool): Result<SubjectResult, MatchError> {
    match SubjectReaders(data)
    case Err(e) => Err(e)
    case Ok(names) => Ok(SubjectResult(SubjectRowsFor(data, names, ov), names.reader1, names.reader2))
  }

  /** The reader-2 positions used once the first `i` reader-1 lesions are done. */
  ghost function Taken(r1: seq<Path>, r2: seq<Path>, ov: (Path, Path) -> bool, i: nat): set<nat>
    requires i <= |r1|
  {
    set j: nat | j < |r2| && exists i' :: 0 <= i' < i && ov(r1[i'], r2[j])
  }

  /** Adding one origin adds its row at the end. */
  lemma RowsSnoc(subject: string, underlay: Path, r1: seq<Path>, r2: seq<Path>, a: seq<Origin>, x: Origin)
    ensures Rows(subject, underlay, r1, r2, a + [x]) == Rows(subject, underlay, r1, r2, a) + [RowOf(subject, underlay, r1, r2, x)]
  {
  }

  /** Taking one more origin of `c` adds its row at the end. */
  lemma RowsPrefixStep(subject: string, underlay: Path, r1: seq<Path>, r2: seq<Path>, p: seq<Origin>, c: seq<Origin>, t: nat)
    requires t < |c|
    ensures Rows(subject, underlay, r1, r2, p + c[..t]) + [RowOf(subject, underlay, r1, r2, c[t])]
      == Rows(subject, underlay, r1, r2, p + c[..t + 1])
  {
    assert p + c[..t + 1] == (p + c[..t]) + [c[t]];
    RowsSnoc(subject, underlay, r1, r2, p + c[..t], c[t]);
  }

  /**
   * The inner loop for reader-1 lesion `i`: every unused reader-2 lesion that
   * overlaps it is collected and marked used.
   */
  method ScanReader2(r1: seq<Path>, r2: seq<Path>, ov: (Path, Path) -> bool, i: nat, used0: set<nat>)
    returns (matches: seq<Path>, used: set<nat>)
    requires i < |r1| && used0 == Taken(r1, r2, ov, i)
    ensures used == Taken(r1, r2, ov, i + 1)
    ensures |matches| == |Claims(r1, r2, ov, i, |r2|)|
    ensures forall t :: 0 <= t < |matches| ==> matches[t] == r2[Claims(r1, r2, ov, i, |r2|)[t].j]
  {
    matches, used := [], used0;
    for idx := 0 to |r2|
      invariant used == used0 + set j: nat | j < idx && ov(r1[i], r2[j])
      invariant |matches| == |Claims(r1, r2, ov, i, idx)|
      invariant forall t :: 0 <= t < |matches| ==> matches[t] == r2[Claims(r1, r2, ov, i, idx)[t].j]
    {
      if idx in used {
        assert idx in used0;
        assert !FirstOverlap(r1, r2, ov, i, idx);
        continue;
      }
      if ov(r1[i], r2[idx]) {
        assert FirstOverlap(r1, r2, ov, i, idx);
        matches := matches + [r2[idx]];
        used := used + {idx};
      }
    }
    forall j: nat ensures j in used <==> j in Taken(r1, r2, ov, i + 1) {
      if j in Taken(r1, r2, ov, i + 1) && j !in used0 {
        var i' :| 0 <= i' < i + 1 && ov(r1[i'], r2[j]);
        assert i' == i;
      }
    }
  }

  /** The outer loop of `process_subject`: the rows for every reader-1 lesion, in order. */
  method MatchReader1Lesions(subject: string, underlay: Path, r1: seq<Path>, r2: seq<Path>, ov: (Path, Path) -> bool)
    returns (results: seq<MatchRow>, used: set<nat>)
    ensures results == Rows(subject, underlay, r1, r2, Reader1Part(r1, r2, ov, |r1|))
    ensures used == Taken(r1, r2, ov, |r1|)
  {
    results, used := [], {};
    var counter := 1;
    for i := 0 to |r1|
      invariant counter == i + 1
      invariant results == Rows(subject, underlay, r1, r2, Reader1Part(r1, r2, ov, i))
      invariant used == Taken(r1, r2, ov, i)
    {
      var matches;
      matches, used := ScanReader2(r1, r2, ov, i, used);
      results := AppendBlock(subject, underlay, r1, r2, ov, i, LesionId(subject, counter), matches, results);
      counter := counter + 1;
    }
  }

  /** The rows for reader-1 lesion `i`: one per match, or one with an empty reader-2 path when there is none. */
  method AppendBlock(subject: string, underlay: Path, r1: seq<Path>, r2: seq<Path>, ov: (Path, Path) -> bool,
                     i: nat, lesionId: string, matches: seq<Path>, results0: seq<MatchRow>)
    returns (results: seq<MatchRow>)
    requires i < |r1| && lesionId == LesionId(subject, i + 1)
    requires results0 == Rows(subject, underlay, r1, r2, Reader1Part(r1, r2, ov, i))
    requires |matches| == |Claims(r1, r2, ov, i, |r2|)|
    requires forall t :: 0 <= t < |matches| ==> matches[t] == r2[Claims(r1, r2, ov, i, |r2|)[t].j]
    ensures results == Rows(subject, underlay, r1, r2, Reader1Part(r1, r2, ov, i + 1))
  {
    ghost var before := Reader1Part(r1, r2, ov, i);
    if |matches| > 0 {
      results := AppendMatches(subject, underlay, r1, r2, ov, i, lesionId, matches, before, results0);
    } else {
      RowsSnoc(subject, underlay, r1, r2, before, Reader1Only(i));
      results := results0 + [MatchRow(lesionId, underlay, r1[i], "")];
    }
    assert Reader1Part(r1, r2, ov, i + 1) == before + Block(r1, r2, ov, i);
  }

  /** The inner write loop: one row per reader-2 lesion that reader-1 lesion `i` claimed. */
  method AppendMatches(subject: string, underlay: Path, r1: seq<Path>, r2: seq<Path>, ov: (Path, Path) -> bool,
                       i: nat, lesionId: string, matches: seq<Path>, ghost before: seq<Origin>, results0: seq<MatchRow>)
    returns (results: seq<MatchRow>)
    requires i < |r1| && lesionId == LesionId(subject, i + 1)
    requires results0 == Rows(subject, underlay, r1, r2, before)
    requires |matches| == |Claims(r1, r2, ov, i, |r2|)|
    requires forall t :: 0 <= t < |matches| ==> matches[t] == r2[Claims(r1, r2, ov, i, |r2|)[t].j]
    ensures results == Rows(subject, underlay, r1, r2, before + Claims(r1, r2, ov, i, |r2|))
  {
    results := results0;
    ghost var claims := Claims(r1, r2, ov, i, |r2|);
    assert before + claims[..0] == before;
    for t := 0 to |matches|
      invariant results == Rows(subject, underlay, r1, r2, before + claims[..t])
    {
      RowsPrefixStep(subject, underlay, r1, r2, before, claims, t);
      assert MatchRow(lesionId, underlay, r1[i], matches[t]) == RowOf(subject, underlay, r1, r2, claims[t]);
      results := results + [MatchRow(lesionId, underlay, r1[i], matches[t])];
    }
    assert claims[..|matches|] == claims;
  }

  /** After the reader-1 loop, a reader-2 lesion is used exactly when some reader-1 lesion overlaps it. */
  lemma TakenAll(r1: seq<Path>, r2: seq<Path>, ov: (Path, Path) -> bool, j: nat)
    requires j < |r2|
    ensures j in Taken(r1, r2, ov, |r1|) <==> Overlapped(r1, r2, ov, j)
  {
  }

  /** The leftovers of the first `n + 1` reader-2 lesions, from those of the first `n`. */
  lemma LeftoverStep(subject: string, underlay: Path, r1: seq<Path>, r2: seq<Path>, ov: (Path, Path) -> bool,
                     first: seq<Origin>, n: nat)
    requires n < |r2| && !Overlapped(r1, r2, ov, n)
    ensures var left := Leftovers(r1, r2, ov, n);
      var x := Reader2Only(n, |r1| + 1 + |left|);
      && Leftovers(r1, r2, ov, n + 1) == left + [x]
      && Rows(subject, underlay, r1, r2, first + Leftovers(r1, r2, ov, n + 1))
         == Rows(subject, underlay, r1, r2, first + left) + [MatchRow(LesionId(subject, x.counter), underlay, "", r2[n])]
  {
    var left := Leftovers(r1, r2, ov, n);
    var x := Reader2Only(n, |r1| + 1 + |left|);
    assert first + (left + [x]) == (first + left) + [x];
    RowsSnoc(subject, underlay, r1, r2, first + left, x);
  }

  /** The final loop of `process_subject`: one row per reader-2 lesion nobody used. */
  method AppendLeftovers(subject: string, underlay: Path, r1: seq<Path>, r2: seq<Path>, ov: (Path, Path) -> bool,
                         used: set<nat>, rows0: seq<MatchRow>)
    returns (results: seq<MatchRow>)
    requires used == Taken(r1, r2, ov, |r1|)
    requires rows0 == Rows(subject, underlay, r1, r2, Reader1Part(r1, r2, ov, |r1|))
    ensures results == SubjectRows(subject, underlay, r1, r2, ov)
  {
    ghost var firstPart := Reader1Part(r1, r2, ov, |r1|);
    results := rows0;
    var counter := |r1| + 1;
    for idx := 0 to |r2|
      invariant counter == |r1| + 1 + |Leftovers(r1, r2, ov, idx)|
      invariant results == Rows(subject, underlay, r1, r2, firstPart + Leftovers(r1, r2, ov, idx))
    {
      TakenAll(r1, r2, ov, idx);
      if idx !in used {
        LeftoverStep(subject, underlay, r1, r2, ov, firstPart, idx);
        results := results + [MatchRow(LesionId(subject, counter), underlay, "", r2[idx])];
        counter := counter + 1;
      }
    }
  }

  /** `process_subject` on one subject's table. */
  method ProcessSubject(data: seq<LesionEntry>, ov: (Path, Path) -> bool) returns (res: Result<SubjectResult, MatchError>)
    ensures res == SubjectOutcome(data, ov)
  {
    var readerTypes := Distinct(ReaderTypes(data));
    if |readerTypes| > 2 {
      return Err(TooManyReaderTypes(|readerTypes|));
    }
    if |readerTypes| == 0 {
      return Err(NoLesions);
    }
    var reader1, reader2;
    if |readerTypes| == 1 {
      reader1, reader2 := readerTypes[0], NO_READER;
    } else {
      reader1, reader2 := readerTypes[0], readerTypes[1];
    }
    var r1 := PathsOf(data, reader1);
    var r2 := if reader2 != NO_READER then PathsOf(data, reader2) else [];
    var subject, underlay := data[0].subject, data[0].underlay;
    var results, used := MatchReader1Lesions(subject, underlay, r1, r2, ov);
    if reader2 != NO_READER {
      results := AppendLeftovers(subject, underlay, r1, r2, ov, used, results);
    } else {
      assert Leftovers(r1, r2, ov, |r2|) == [];
      assert Origins(r1, r2, ov) == Reader1Part(r1, r2, ov, |r1|);
    }
    return Ok(SubjectResult(results, reader1, reader2));
  }

  // ---------------------------------------------------------------------------
  // match_lesions
  // ---------------------------------------------------------------------------

  function SubjectColumn(data: seq<LesionEntry>): seq<string> {
    seq(|data|, k requires 0 <= k < |data| => data[k].subject)
  }

  /** `data[data['Subject Folder'] == subject]`: one subject's rows, in table order. */
  function SubjectTable(data: seq<LesionEntry>, subject: string): (t: seq<LesionEntry>)
    ensures |t| <= |data|
  {
    if data == [] then []
    else
      var last := data[|data| - 1];
      SubjectTable(data[..|data| - 1], subject) + (if last.subject == subject then [last] else [])
  }

  /** The concatenated rows and the union of the reader names of the subjects so far. */
  datatype Collection = Collection(rows: seq<MatchRow>, readerNames: set<string>)

  /** The loop over per-subject results, in subject order; the first failing subject's error propagates. */
  function Collect(data: seq<LesionEntry>, subjects: seq<string>, ov: (Path, Path) -> bool): Result<Collection, MatchError> {
    if subjects == [] then Ok(Collection([], {}))
    else
      match Collect(data, subjects[..|subjects| - 1], ov)
      case Err(e) => Err(e)
      case Ok(c) =>
        match SubjectOutcome(SubjectTable(data, subjects[|subjects| - 1]), ov)
        case Err(e) => Err(e)
        case Ok(r) => Ok(Collection(c.rows + r.rows, c.readerNames + {r.reader1, r.reader2}))
  }

  /** What `match_lesions` writes (the four-column table) or the error it raises. */
  function MatchOutcome(data: seq<LesionEntry>, ov: (Path, Path) -> bool): Result<seq<MatchRow>, MatchError> {
    if data == [] then Err(MissingColumns)
    else match Collect(data, Distinct(SubjectColumn(data)), ov)
    case Err(e) => Err(e)
    case Ok(c) => if |c.readerNames| != 2 then Err(ReaderTypeCount(|c.readerNames|)) else Ok(c.rows)
  }

  /** Once a prefix of the subjects fails, the whole collection fails with that error. */
  lemma {:induction false} CollectErrorStays(data: seq<LesionEntry>, subjects: seq<string>, k: nat, ov: (Path, Path) -> bool)
    requires k <= |subjects| && Collect(data, subjects[..k], ov).Err?
    ensures Collect(data, subjects, ov) == Collect(data, subjects[..k], ov)
  {
    if k < |subjects| {
      var init := subjects[..|subjects| - 1];
      assert init[..k] == subjects[..k];
      CollectErrorStays(data, init, k, ov);
    } else {
      assert subjects[..k] == subjects;
    }
  }

  /** One more subject that succeeds adds its rows and its two reader names. */
  lemma CollectStep(data: seq<LesionEntry>, subjects: seq<string>, s: nat, ov: (Path, Path) -> bool, c: Collection, r: SubjectResult)
    requires s < |subjects| && Collect(data, subjects[..s], ov) == Ok(c)
    requires SubjectOutcome(SubjectTable(data, subjects[s]), ov) == Ok(r)
    ensures Collect(data, subjects[..s + 1], ov) == Ok(Collection(c.rows + r.rows, c.readerNames + {r.reader1, r.reader2}))
  {
    assert subjects[..s + 1][..s] == subjects[..s];
  }

  /** One more subject that fails makes the whole collection fail with its error. */
  lemma CollectFails(data: seq<LesionEntry>, subjects: seq<string>, s: nat, ov: (Path, Path) -> bool, e: MatchError)
    requires s < |subjects| && Collect(data, subjects[..s], ov).Ok?
    requires SubjectOutcome(SubjectTable(data, subjects[s]), ov) == Err(e)
    ensures Collect(data, subjects, ov) == Err(e)
  {
    assert subjects[..s + 1][..s] == subjects[..s];
    CollectErrorStays(data, subjects, s + 1, ov);
  }

  /** `match_lesions`: every subject in order of first appearance, then the reader-name check. */
  method MatchLesions(data: seq<LesionEntry>, ov: (Path, Path) -> bool) returns (res: Result<seq<MatchRow>, MatchError>)
    ensures res == MatchOutcome(data, ov)
  {
    if data == [] {
      return Err(MissingColumns);
    }
    var subjects := Distinct(SubjectColumn(data));
    var allResults: seq<MatchRow> := [];
    var readerTypes: set<string> := {};
    for s := 0 to |subjects|
      invariant Collect(data, subjects[..s], ov) == Ok(Collection(allResults, readerTypes))
    {
      var r := ProcessSubject(SubjectTable(data, subjects[s]), ov);
      if r.Err? {
        CollectFails(data, subjects, s, ov, r.error);
        return Err(r.error);
      }
      CollectStep(data, subjects, s, ov, Collection(allResults, readerTypes), r.value);
      allResults := allResults + r.value.rows;
      readerTypes := readerTypes + {r.value.reader1, r.value.reader2};
    }
    assert subjects[..|subjects|] == subjects;
    if |readerTypes| != 2 {
      return Err(ReaderTypeCount(|readerTypes|));
    }
    return Ok(allResults);
  }
}
