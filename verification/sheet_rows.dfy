/**
 * The read side of the sheet adapter (api/sheets.js): a sheet is the grid
 * of strings the Sheets API returns for the range `Sheet1!A:Z`, row 0 is
 * the header row, and every later row becomes a gift record keyed by the
 * header names.
 */
module SheetRows {
  import opened Wrappers
  import opened JsText

  /** One row of cells. The API omits trailing empty cells, so rows can be shorter than the header. */
  type Row = seq<string>

  /** The rows of the read range, header row first. */
  type Grid = seq<Row>

  /** A gift as a plain object from column name to cell text. */
  type Record = map<string, string>

  const IdColumn := "id"
  const ClaimedByColumn := "claimedBy"
  const ClaimedDateColumn := "claimedDate"

  /** `row[i]`: the cell, or None where JavaScript reads `undefined` (a negative index or one past the end). */
  function CellAt(row: Row, i: int): (c: Option<string>)
    ensures c.Some? <==> 0 <= i < |row|
    ensures c.Some? ==> c.value == row[i]
  {
    if 0 <= i < |row| then Some(row[i]) else None
  }

  /** Column j fills key k of the record: the header there is k, it is non-empty, and the row reaches column j. */
  predicate Supplies(headers: Row, row: Row, j: int, k: string) {
    0 <= j < |headers| && j < |row| && headers[j] == k && k != ""
  }

  /** Column j is the last column that fills key k (later assignments overwrite earlier ones). */
  predicate LastSupplier(headers: Row, row: Row, j: int, k: string) {
    Supplies(headers, row, j, k) && forall j' :: j < j' < |headers| ==> !Supplies(headers, row, j', k)
  }

  /** The record built from the first n headers. */
  function RowToObjectUpTo(headers: Row, row: Row, n: nat): (r: Record)
    requires n <= |headers|
    ensures forall k :: k in r <==> exists j :: 0 <= j < n && Supplies(headers, row, j, k)
    ensures forall k :: k in r ==>
      exists j :: 0 <= j < n && Supplies(headers, row, j, k) && r[k] == row[j]
        && forall j' :: j < j' < n ==> !Supplies(headers, row, j', k)
    decreases n
  {
    if n == 0 then map[]
    else
      var m := RowToObjectUpTo(headers, row, n - 1);
      var h := headers[n - 1];
      // A cell is a string, so `row[index] || ''` is the cell itself.
      if h != "" && n - 1 < |row| then
        assert Supplies(headers, row, n - 1, h);
        m[h := row[n - 1]]
      else m
  }

  /** `rowToObject(headers, row)` */
  function RowToObject(headers: Row, row: Row): Record {
    RowToObjectUpTo(headers, row, |headers|)
  }

  /**
   * A key is present exactly when some non-empty header names it within the
   * row's reach, and its value is the cell under the last such header; a
   * short row therefore leaves keys absent rather than empty.
   */
  lemma RowToObjectSpec(headers: Row, row: Row, k: string)
    ensures k in RowToObject(headers, row) <==> exists j :: Supplies(headers, row, j, k)
    ensures k in RowToObject(headers, row) ==>
      exists j :: LastSupplier(headers, row, j, k) && RowToObject(headers, row)[k] == row[j]
  {
  }

  /** The 1-based sheet row of data row i: the header occupies row 1. */
  function SheetRowNumber(i: nat): nat {
    i + 2
  }

  /** Lines 80-82: a record with a missing or empty id is given its sheet row number as id. */
  function WithRowId(g: Record, i: nat): (r: Record)
    ensures IdColumn in r && r[IdColumn] != ""
    ensures forall k :: k != IdColumn ==> (k in r <==> k in g) && (k in g ==> r[k] == g[k])
    ensures IdColumn in g && g[IdColumn] != "" ==> r[IdColumn] == g[IdColumn]
    ensures !(IdColumn in g && g[IdColumn] != "") ==> r[IdColumn] == DecimalString(SheetRowNumber(i))
  {
    if IdColumn !in g || g[IdColumn] == "" then
      g[IdColumn := DecimalString(SheetRowNumber(i))]
    else g
  }

  /** The GET branch: the records of all data rows; an absent or empty grid gives none. */
  function ListGifts(values: Option<Grid>): (gifts: seq<Record>)
    ensures forall i :: 0 <= i < |gifts| ==> IdColumn in gifts[i] && gifts[i][IdColumn] != ""
  {
    if values.None? || |values.value| == 0 then []
    else
      var rows := values.value;
      seq(|rows| - 1, i requires 0 <= i < |rows| - 1 => WithRowId(RowToObject(rows[0], rows[i + 1]), i))
  }

  /** True when no header names the id column (`headers.indexOf('id') === -1`). */
  predicate NoIdHeader(values: Option<Grid>) {
    values.Some? && |values.value| > 0 && IdColumn !in values.value[0]
  }

  /**
   * What GET promises of the record it builds from data row i: a non-empty
   * id; every other key exactly as the row supplies it; the id is the cell
   * under the last id header when that is non-empty, and the decimal sheet
   * row number otherwise.
   */
  ghost predicate IsRecordOf(headers: Row, row: Row, i: nat, g: Record) {
    && IdColumn in g && g[IdColumn] != ""
    && (forall k :: k != IdColumn ==> (k in g <==> exists j :: Supplies(headers, row, j, k)))
    && (forall k :: k != IdColumn && k in g ==> exists j :: LastSupplier(headers, row, j, k) && g[k] == row[j])
    && (forall j :: LastSupplier(headers, row, j, IdColumn) && row[j] != "" ==> g[IdColumn] == row[j])
    && ((forall j :: LastSupplier(headers, row, j, IdColumn) ==> row[j] == "") ==>
          g[IdColumn] == DecimalString(SheetRowNumber(i)))
  }

  /** The record GET builds for data row i meets IsRecordOf. */
  lemma WithRowIdIsRecordOf(headers: Row, row: Row, i: nat)
    ensures IsRecordOf(headers, row, i, WithRowId(RowToObject(headers, row), i))
  {
    var obj := RowToObject(headers, row);
    forall k | true
      ensures k in obj <==> exists j :: Supplies(headers, row, j, k)
      ensures k in obj ==> exists j :: LastSupplier(headers, row, j, k) && obj[k] == row[j]
    {
      RowToObjectSpec(headers, row, k);
    }
    forall j | LastSupplier(headers, row, j, IdColumn)
      ensures obj[IdColumn] == row[j]
    {
      var j' :| LastSupplier(headers, row, j', IdColumn) && obj[IdColumn] == row[j'];
      assert j == j';
    }
  }

  /** GET on an absent or empty grid returns no records; otherwise one record per data row, in row order. */
  lemma ListGiftsSpec(values: Option<Grid>)
    ensures values.None? || |values.value| == 0 ==> ListGifts(values) == []
    ensures values.Some? && |values.value| > 0 ==>
      && |ListGifts(values)| == |values.value| - 1
      && forall i :: 0 <= i < |ListGifts(values)| ==>
           IsRecordOf(values.value[0], values.value[i + 1], i, ListGifts(values)[i])
  {
    if values.Some? && |values.value| > 0 {
      forall i | 0 <= i < |ListGifts(values)|
        ensures IsRecordOf(values.value[0], values.value[i + 1], i, ListGifts(values)[i])
      {
        assert ListGifts(values)[i] == WithRowId(RowToObject(values.value[0], values.value[i + 1]), i);
        WithRowIdIsRecordOf(values.value[0], values.value[i + 1], i);
      }
    }
  }

  /**
   * Without an id header every id is synthesised: data row i gets the
   * numeral of sheet row i + 2, so the ids are "2", "3", ... and pairwise
   * distinct.
   */
  lemma SynthesisedIdsDistinct(values: Option<Grid>)
    requires NoIdHeader(values)
    ensures forall i :: 0 <= i < |ListGifts(values)| ==>
      ListGifts(values)[i][IdColumn] == DecimalString(SheetRowNumber(i))
    ensures forall i, j :: 0 <= i < j < |ListGifts(values)| ==>
      ListGifts(values)[i][IdColumn] != ListGifts(values)[j][IdColumn]
  {
    var gifts := ListGifts(values);
    var headers := values.value[0];
    forall i | 0 <= i < |gifts|
      ensures gifts[i][IdColumn] == DecimalString(SheetRowNumber(i))
    {
      var obj := RowToObject(headers, values.value[i + 1]);
      assert gifts[i] == WithRowId(obj, i);
      RowToObjectSpec(headers, values.value[i + 1], IdColumn);
      assert IdColumn !in obj;
    }
    forall i, j | 0 <= i < j < |gifts|
      ensures gifts[i][IdColumn] != gifts[j][IdColumn]
    {
      DecimalStringInjective(SheetRowNumber(i), SheetRowNumber(j));
    }
  }
}
