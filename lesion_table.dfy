/**
 * The lesion match table as the slice renderers read it (`read_lesion_matches`
 * of scripts/image_processing.py and of image_processing.py, which agree).
 *
 * A data row is the map from column name to its cell; a NaN cell is a column
 * missing from the row's map. The result is the `matches` dict: its keys in
 * insertion order (`ids`) and its entries (`byId`).
 */
module LesionTable {
  import opened Wrappers
  import opened Collections
  import opened Readers

  /** The non-empty cells of one row, by column name. */
  type Row = map<string, string>

  /** A tab-separated table: its header and its data rows. */
  datatype Tsv = Tsv(columns: seq<string>, rows: seq<Row>)

  /** The entry kept for one lesion; `None` where pandas holds NaN (or the reader column is absent). */
  datatype LesionMatch = LesionMatch(underlay: Option<string>, reader1: Option<string>, reader2: Option<string>)

  /** A dict from lesion id to its entry, with its keys in insertion order. */
  datatype LesionMatches = LesionMatches(ids: seq<string>, byId: map<string, LesionMatch>)

  /** "TSV file format is incorrect." */
  datatype TsvError = FormatIncorrect

  const LESION_ID: string := "Lesion ID"
  const UNDERLAY: string := "Underlay"

  /** `str(row['Lesion ID'])`: the cell, or "nan" for an empty cell. */
  function LesionIdOf(row: Row): string {
    if LESION_ID in row then row[LESION_ID] else "nan"
  }

  /** A reader's path: present only when the column exists and the cell is not NaN. */
  function ReaderCell(tsv: Tsv, row: Row, reader: string): Option<string> {
    if reader in tsv.columns && reader in row then Some(row[reader]) else None
  }

  /** The entry built from one row. */
  function MatchOf(tsv: Tsv, row: Row): LesionMatch {
    LesionMatch(if UNDERLAY in row then Some(row[UNDERLAY]) else None,
                ReaderCell(tsv, row, READER_1),
                ReaderCell(tsv, row, READER_2))
  }

  /** `matches[id] = v`: a new key goes last, an existing key keeps its place. */
  function Insert(m: LesionMatches, id: string, v: LesionMatch): LesionMatches {
    LesionMatches(if id in m.byId then m.ids else m.ids + [id], m.byId[id := v])
  }

  /** The dict after the first `n` rows. */
  function Folded(tsv: Tsv, n: nat): LesionMatches
    requires n <= |tsv.rows|
  {
    if n == 0 then LesionMatches([], map[])
    else Insert(Folded(tsv, n - 1), LesionIdOf(tsv.rows[n - 1]), MatchOf(tsv, tsv.rows[n - 1]))
  }

  /** What `read_lesion_matches` returns, or the error it raises. */
  function MatchTable(tsv: Tsv): Result<LesionMatches, TsvError> {
    if LESION_ID !in tsv.columns || UNDERLAY !in tsv.columns then Err(FormatIncorrect)
    else Ok(Folded(tsv, |tsv.rows|))
  }

  /** `read_lesion_matches` on an already parsed table. */
  method ReadLesionMatches(tsv: Tsv) returns (r: Result<LesionMatches, TsvError>)
    ensures r == MatchTable(tsv)
  {
    if LESION_ID !in tsv.columns || UNDERLAY !in tsv.columns {
      return Err(FormatIncorrect);
    }
    var matches := LesionMatches([], map[]);
    for t := 0 to |tsv.rows|
      invariant matches == Folded(tsv, t)
    {
      var row := tsv.rows[t];
      matches := Insert(matches, LesionIdOf(row), MatchOf(tsv, row));
    }
    return Ok(matches);
  }

  // ---------------------------------------------------------------------------
  // Properties
  // ---------------------------------------------------------------------------

  /** The lesion ids of the rows, in row order. */
  function RowIds(rows: seq<Row>): (ids: seq<string>)
    ensures |ids| == |rows|
  {
    seq(|rows|, t requires 0 <= t < |rows| => LesionIdOf(rows[t]))
  }

  /** The table fails exactly when one of the two required columns is missing. */
  lemma MatchTableFails(tsv: Tsv)
    ensures MatchTable(tsv).Err? <==> LESION_ID !in tsv.columns || UNDERLAY !in tsv.columns
  {
  }

  /**
   * After `n` rows the keys are the distinct ids of those rows in order of
   * first appearance, and the keys listed are exactly the keys of the dict.
   */
  lemma {:induction false} FoldedKeys(tsv: Tsv, n: nat)
    requires n <= |tsv.rows|
    ensures Folded(tsv, n).ids == Distinct(RowIds(tsv.rows[..n]))
    ensures forall id :: id in Folded(tsv, n).ids <==> id in Folded(tsv, n).byId
  {
    if n > 0 {
      FoldedKeys(tsv, n - 1);
      var prev := Folded(tsv, n - 1);
      var id := LesionIdOf(tsv.rows[n - 1]);
      RowIdsSnoc(tsv.rows, n);
      DistinctSnoc(RowIds(tsv.rows[..n - 1]), id);
      assert Folded(tsv, n) == Insert(prev, id, MatchOf(tsv, tsv.rows[n - 1]));
    }
  }

  /** The ids of one more row: those of the rows before, then its own. */
  lemma RowIdsSnoc(rows: seq<Row>, n: nat)
    requires 0 < n <= |rows|
    ensures RowIds(rows[..n]) == RowIds(rows[..n - 1]) + [LesionIdOf(rows[n - 1])]
  {
    var ids := RowIds(rows[..n]);
    assert ids[..n - 1] == RowIds(rows[..n - 1]);
    assert ids == ids[..n - 1] + [ids[n - 1]];
  }

  /** The index of the last of the first `n` rows whose lesion id is `id`, if any. */
  function LastRow(rows: seq<Row>, n: nat, id: string): (r: Option<nat>)
    requires n <= |rows|
    ensures r.Some? ==> r.value < n && LesionIdOf(rows[r.value]) == id
  {
    if n == 0 then None
    else if LesionIdOf(rows[n - 1]) == id then Some(n - 1)
    else LastRow(rows, n - 1, id)
  }

  /** `LastRow` finds a row exactly when one carries the id, and no later row carries it. */
  lemma {:induction false} LastRowIsLast(rows: seq<Row>, n: nat, id: string)
    requires n <= |rows|
    ensures LastRow(rows, n, id).None? <==> forall t :: 0 <= t < n ==> LesionIdOf(rows[t]) != id
    ensures LastRow(rows, n, id).Some? ==> forall u :: LastRow(rows, n, id).value < u < n ==> LesionIdOf(rows[u]) != id
  {
    if n > 0 {
      LastRowIsLast(rows, n - 1, id);
    }
  }

  /** After `n` rows an id has an entry exactly when some row carries it, built from the last such row. */
  lemma {:induction false} FoldedLastRow(tsv: Tsv, n: nat, id: string)
    requires n <= |tsv.rows|
    ensures id in Folded(tsv, n).byId <==> LastRow(tsv.rows, n, id).Some?
    ensures id in Folded(tsv, n).byId ==> Folded(tsv, n).byId[id] == MatchOf(tsv, tsv.rows[LastRow(tsv.rows, n, id).value])
  {
    if n > 0 {
      FoldedLastRow(tsv, n - 1, id);
    }
  }

  /**
   * After `n` rows an id has an entry exactly when some row carries it, and
   * the entry is the one built from the last such row.
   */
  lemma FoldedLastRowWins(tsv: Tsv, n: nat, id: string)
    requires n <= |tsv.rows|
    ensures id in Folded(tsv, n).byId <==> exists t :: 0 <= t < n && LesionIdOf(tsv.rows[t]) == id
    ensures id in Folded(tsv, n).byId ==>
      exists t :: 0 <= t < n && LesionIdOf(tsv.rows[t]) == id
        && Folded(tsv, n).byId[id] == MatchOf(tsv, tsv.rows[t])
        && forall u :: t < u < n ==> LesionIdOf(tsv.rows[u]) != id
  {
    FoldedLastRow(tsv, n, id);
    LastRowIsLast(tsv.rows, n, id);
    var last := LastRow(tsv.rows, n, id);
    if last.Some? {
      var t := last.value;
      assert 0 <= t < n && LesionIdOf(tsv.rows[t]) == id;
    }
  }

  /**
   * `read_lesion_matches` on a well-formed table: one entry per distinct
   * lesion id, in order of first appearance, each built from the last row
   * with that id.
   */
  lemma MatchTableContents(tsv: Tsv, id: string)
    requires MatchTable(tsv).Ok?
    ensures MatchTable(tsv).value.ids == Distinct(RowIds(tsv.rows))
    ensures id in MatchTable(tsv).value.byId <==> id in RowIds(tsv.rows)
    ensures id in MatchTable(tsv).value.byId ==>
      exists t :: 0 <= t < |tsv.rows| && LesionIdOf(tsv.rows[t]) == id
        && MatchTable(tsv).value.byId[id] == MatchOf(tsv, tsv.rows[t])
        && forall u :: t < u < |tsv.rows| ==> LesionIdOf(tsv.rows[u]) != id
  {
    FoldedKeys(tsv, |tsv.rows|);
    FoldedLastRowWins(tsv, |tsv.rows|, id);
    assert tsv.rows[..|tsv.rows|] == tsv.rows;
  }
}
