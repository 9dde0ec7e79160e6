/**
 * The request handler of api/sheets.js with the Google client turned into
 * data: the outcome of loading credentials, the grid the read returns and
 * whether the batch write succeeds are inputs (a Backend), and the calls
 * the handler makes on the spreadsheet are part of its output.
 */
module SheetsHandler {
  import opened Wrappers
  import opened JsText
  import opened Seqs
  import opened SheetRows
  import opened ColumnLetters

  const SheetName := "Sheet1"

  /** The entries of the PATCH body's `data` object, in `Object.keys` order. */
  type Fields = seq<(string, string)>

  /** The single-cell write `{ range, values: [[value]] }`. */
  datatype CellWrite = CellWrite(range: string, value: string)

  /** What the handler asks of the spreadsheet. */
  datatype Call = ReadValues | BatchUpdate(writes: seq<CellWrite>)

  /** The JSON body of the reply. */
  datatype Body =
    | NoContent                // `res.status(200).end()`
    | GiftList(gifts: seq<Record>)
    | Succeeded                // `{ success: true }`
    | Error(message: string)   // `{ error: ... }` with a message of this handler's own
    | BackendError             // `{ error: error.message }` for whatever the client threw

  datatype Response = Response(status: nat, body: Body, calls: seq<Call>)

  /** What `sheets.spreadsheets.values.get` yields: a failure, or `response.data.values` (absent for an empty sheet). */
  datatype SheetRead = ReadFails | ReadOk(values: Option<Grid>)

  /** The outside world as the handler sees it. */
  datatype Backend = Backend(credentialsOk: bool, read: SheetRead, writeSucceeds: bool)

  /** `req.body`: absent, or an object whose `data` member is an object (Some) or undefined/null (None). */
  datatype PatchBody = NoBody | BodyObject(data: Option<Fields>)

  /** `req.method`, `req.query.id` (None when absent) and `req.body`. */
  datatype Request = Request(httpMethod: string, queryId: Option<string>, body: PatchBody)

  /** `xs.indexOf(x)`: the first position of x, or -1. */
  function IndexOf(xs: seq<string>, x: string): (r: int)
    ensures r == -1 <==> x !in xs
    ensures r != -1 ==> 0 <= r < |xs| && xs[r] == x && x !in xs[..r]
  {
    if xs == [] then -1
    else if xs[0] == x then 0
    else
      var r := IndexOf(xs[1..], x);
      assert r != -1 ==> xs[..r + 1] == [xs[0]] + xs[1..][..r];
      if r == -1 then -1 else r + 1
  }

  /** Line 113: the row's id cell is the queried id (`row[-1]` and cells past the end are `undefined`). */
  predicate RowMatches(row: Row, idCol: int, id: string) {
    CellAt(row, idCol) == Some(id)
  }

  function FindRowFrom(rows: Grid, idCol: int, id: string, k: nat): (r: int)
    requires 1 <= k <= |rows|
    ensures r == -1 || k <= r < |rows|
    ensures r == -1 <==> forall i :: k <= i < |rows| ==> !RowMatches(rows[i], idCol, id)
    ensures r != -1 ==> RowMatches(rows[r], idCol, id) && forall i :: k <= i < r ==> !RowMatches(rows[i], idCol, id)
    decreases |rows| - k
  {
    if k == |rows| then -1
    else if RowMatches(rows[k], idCol, id) then k
    else FindRowFrom(rows, idCol, id, k + 1)
  }

  /** Lines 111-114: `rows.findIndex` skipping the header row. */
  function FindRowIndex(rows: Grid, idCol: int, id: string): (r: int)
    ensures r == -1 || 1 <= r < |rows|
    ensures r == -1 <==> forall i :: 1 <= i < |rows| ==> !RowMatches(rows[i], idCol, id)
    ensures r != -1 ==> RowMatches(rows[r], idCol, id) && forall i :: 1 <= i < r ==> !RowMatches(rows[i], idCol, id)
  {
    if |rows| == 0 then -1 else FindRowFrom(rows, idCol, id, 1)
  }

  /** `${SHEET_NAME}!${colLetter}${rowNumber}` */
  function A1Range(column: string, rowNumber: nat): string {
    SheetName + "!" + column + DecimalString(rowNumber)
  }

  /** The entry names a header (`headers.indexOf(key) !== -1`). */
  function KnownIn(headers: Row): ((string, string)) -> bool {
    (entry: (string, string)) => entry.0 in headers
  }

  /** The write for one known entry: the cell under the header's first occurrence, in the given sheet row. */
  function WriteFor(headers: Row, entry: (string, string), rowNumber: nat): CellWrite
    requires entry.0 in headers
  {
    CellWrite(A1Range(ColumnName(IndexOf(headers, entry.0)), rowNumber), entry.1)
  }

  /** Lines 121-138: one write per entry that names a header, in key order; the other entries are skipped. */
  function PlanUpdates(headers: Row, data: Fields, rowNumber: nat): (ws: seq<CellWrite>)
    ensures |ws| == |Filter(data, KnownIn(headers))|
    ensures forall j :: 0 <= j < |ws| ==> ws[j] == WriteFor(headers, Filter(data, KnownIn(headers))[j], rowNumber)
    ensures ws == [] <==> forall i :: 0 <= i < |data| ==> data[i].0 !in headers
  {
    if data == [] then []
    else
      var rest := PlanUpdates(headers, data[1..], rowNumber);
      assert Filter(data, KnownIn(headers))
        == (if KnownIn(headers)(data[0]) then [data[0]] else []) + Filter(data[1..], KnownIn(headers));
      assert forall i :: 1 <= i < |data| ==> data[i] == data[1..][i - 1];
      if data[0].0 in headers then [WriteFor(headers, data[0], rowNumber)] + rest else rest
  }

  predicate DistinctKeys(data: Fields) {
    forall i, j :: 0 <= i < j < |data| ==> data[i].0 != data[j].0
  }

  /** Two known keys address the same cell of a row only if they are the same key. */
  lemma WriteForInjective(headers: Row, a: (string, string), b: (string, string), rowNumber: nat)
    requires a.0 in headers && b.0 in headers
    ensures WriteFor(headers, a, rowNumber).range == WriteFor(headers, b, rowNumber).range ==> a.0 == b.0
  {
    var ca := ColumnName(IndexOf(headers, a.0));
    var cb := ColumnName(IndexOf(headers, b.0));
    var digits := DecimalString(rowNumber);
    if A1Range(ca, rowNumber) == A1Range(cb, rowNumber) {
      var pre := SheetName + "!";
      assert A1Range(ca, rowNumber) == pre + ca + digits;
      assert |ca| == |cb|;
      assert ca == A1Range(ca, rowNumber)[|pre|..|pre| + |ca|];
      assert cb == A1Range(cb, rowNumber)[|pre|..|pre| + |cb|];
      ColumnNameSpec(IndexOf(headers, a.0), IndexOf(headers, b.0));
    }
  }

  /** Every entry that names a header gets its write, and every write comes from such an entry. */
  lemma PlanCoversKnownKeys(headers: Row, data: Fields, rowNumber: nat)
    ensures forall i :: 0 <= i < |data| && data[i].0 in headers ==>
      WriteFor(headers, data[i], rowNumber) in PlanUpdates(headers, data, rowNumber)
    ensures forall w :: w in PlanUpdates(headers, data, rowNumber) ==>
      exists i :: 0 <= i < |data| && data[i].0 in headers && w == WriteFor(headers, data[i], rowNumber)
  {
    forall i | 0 <= i < |data| && data[i].0 in headers
      ensures WriteFor(headers, data[i], rowNumber) in PlanUpdates(headers, data, rowNumber)
    {
      KnownKeyIsPlanned(headers, data, rowNumber, i);
    }
    var ws := PlanUpdates(headers, data, rowNumber);
    forall w | w in ws
      ensures exists i :: 0 <= i < |data| && data[i].0 in headers && w == WriteFor(headers, data[i], rowNumber)
    {
      var j :| 0 <= j < |ws| && ws[j] == w;
      PlannedWriteIsKnown(headers, data, rowNumber, j);
    }
  }

  lemma KnownKeyIsPlanned(headers: Row, data: Fields, rowNumber: nat, i: nat)
    requires i < |data| && data[i].0 in headers
    ensures WriteFor(headers, data[i], rowNumber) in PlanUpdates(headers, data, rowNumber)
  {
    var ws := PlanUpdates(headers, data, rowNumber);
    var known := Filter(data, KnownIn(headers));
    FilterMembers(data, KnownIn(headers));
    assert KnownIn(headers)(data[i]);
    assert data[i] in known;
    var j :| 0 <= j < |known| && known[j] == data[i];
    assert ws[j] == WriteFor(headers, data[i], rowNumber);
  }

  lemma PlannedWriteIsKnown(headers: Row, data: Fields, rowNumber: nat, j: nat)
    requires j < |Filter(data, KnownIn(headers))|
    ensures exists i :: (0 <= i < |data| && data[i].0 in headers
      && PlanUpdates(headers, data, rowNumber)[j] == WriteFor(headers, data[i], rowNumber))
  {
    var known := Filter(data, KnownIn(headers));
    FilterMembers(data, KnownIn(headers));
    assert known[j] in data && KnownIn(headers)(known[j]);
    var i :| 0 <= i < |data| && data[i] == known[j];
  }

  /** No two writes address the same cell. */
  predicate DistinctCells(ws: seq<CellWrite>) {
    forall a, b :: 0 <= a < b < |ws| ==> ws[a].range != ws[b].range
  }

  lemma ConsDistinctCells(w: CellWrite, rest: seq<CellWrite>)
    requires DistinctCells(rest)
    requires forall v :: v in rest ==> w.range != v.range
    ensures DistinctCells([w] + rest)
  {
    var ws := [w] + rest;
    forall a, b | 0 <= a < b < |ws|
      ensures ws[a].range != ws[b].range
    {
      assert ws[b] == rest[b - 1];
      if a > 0 {
        assert ws[a] == rest[a - 1];
      } else {
        assert rest[b - 1] in rest;
      }
    }
  }

  /** The write for a known first key addresses a different cell from every write planned for the other keys. */
  lemma HeadWriteIsFresh(headers: Row, data: Fields, rowNumber: nat)
    requires data != [] && data[0].0 in headers && DistinctKeys(data)
    ensures forall w :: w in PlanUpdates(headers, data[1..], rowNumber) ==>
      WriteFor(headers, data[0], rowNumber).range != w.range
  {
    var tail := data[1..];
    PlanCoversKnownKeys(headers, tail, rowNumber);
    forall w | w in PlanUpdates(headers, tail, rowNumber)
      ensures WriteFor(headers, data[0], rowNumber).range != w.range
    {
      var i :| 0 <= i < |tail| && tail[i].0 in headers && w == WriteFor(headers, tail[i], rowNumber);
      assert tail[i] == data[i + 1];
      WriteForInjective(headers, data[0], tail[i], rowNumber);
    }
  }

  /**
   * With the distinct keys of a JavaScript object no two writes of the plan
   * address the same cell, so each key that names a header is written
   * exactly once.
   */
  lemma {:induction false} PlanCellsDistinct(headers: Row, data: Fields, rowNumber: nat)
    requires DistinctKeys(data)
    ensures DistinctCells(PlanUpdates(headers, data, rowNumber))
    decreases |data|
  {
    if data != [] {
      var tail := data[1..];
      assert DistinctKeys(tail) by {
        forall i, j | 0 <= i < j < |tail|
          ensures tail[i].0 != tail[j].0
        {
          assert tail[i] == data[i + 1] && tail[j] == data[j + 1];
        }
      }
      PlanCellsDistinct(headers, tail, rowNumber);
      var rest := PlanUpdates(headers, tail, rowNumber);
      if data[0].0 in headers {
        HeadWriteIsFresh(headers, data, rowNumber);
        ConsDistinctCells(WriteFor(headers, data[0], rowNumber), rest);
        assert PlanUpdates(headers, data, rowNumber) == [WriteFor(headers, data[0], rowNumber)] + rest;
      } else {
        assert PlanUpdates(headers, data, rowNumber) == rest;
      }
    }
  }

  /** The PATCH branch, lines 89-153. */
  function HandlePatch(req: Request, be: Backend): Response
    requires req.httpMethod == "PATCH"
  {
    match req.body
    // `const { data } = req.body` throws on a missing body.
    case NoBody => Response(500, BackendError, [])
    case BodyObject(data) =>
      if req.queryId.None? || req.queryId.value == "" then Response(400, Error("ID is required"), [])
      else
        var id := req.queryId.value;
        match be.read
        case ReadFails => Response(500, BackendError, [ReadValues])
        case ReadOk(values) =>
          if values.None? || |values.value| == 0 then Response(404, Error("Sheet is empty"), [ReadValues])
          else
            var rows := values.value;
            var headers := rows[0];
            var rowIndex := FindRowIndex(rows, IndexOf(headers, IdColumn), id);
            if rowIndex == -1 then Response(404, Error("Gift not found"), [ReadValues])
            // `Object.keys(undefined)` throws.
            else if data.None? then Response(500, BackendError, [ReadValues])
            else
              var updates := PlanUpdates(headers, data.value, rowIndex + 1);
              if updates == [] then Response(400, Error("No valid columns to update"), [ReadValues])
              else if !be.writeSucceeds then Response(500, BackendError, [ReadValues, BatchUpdate(updates)])
              else Response(200, Succeeded, [ReadValues, BatchUpdate(updates)])
  }

  /** The GET branch, lines 64-87. */
  function HandleGet(be: Backend): Response {
    match be.read
    case ReadFails => Response(500, BackendError, [ReadValues])
    case ReadOk(values) => Response(200, GiftList(ListGifts(values)), [ReadValues])
  }

  /** `handler(req, res)`: the status it sets, the body it sends and the spreadsheet calls it makes. */
  function Handle(req: Request, be: Backend): (r: Response)
    ensures r.status in {200, 400, 404, 405, 500}
    ensures r.status == 405 <==> be.credentialsOk && req.httpMethod !in {"GET", "PATCH", "OPTIONS"}
    ensures (exists ws :: BatchUpdate(ws) in r.calls) ==> req.httpMethod == "PATCH"
    ensures req.httpMethod == "OPTIONS" ==> r == Response(200, NoContent, [])
  {
    if req.httpMethod == "OPTIONS" then Response(200, NoContent, [])
    // Credentials are loaded before the method is dispatched.
    else if !be.credentialsOk then Response(500, BackendError, [])
    else if req.httpMethod == "GET" then HandleGet(be)
    else if req.httpMethod == "PATCH" then HandlePatch(req, be)
    else Response(405, Error("Method not allowed"), [])
  }

  /** GET answers 200 with the records of the sheet it read (none for an empty sheet), or 500 when the read fails. */
  lemma GetListsGifts(req: Request, be: Backend)
    requires req.httpMethod == "GET" && be.credentialsOk
    ensures be.read.ReadFails? ==> Handle(req, be) == Response(500, BackendError, [ReadValues])
    ensures be.read.ReadOk? ==> Handle(req, be) == Response(200, GiftList(ListGifts(be.read.values)), [ReadValues])
    ensures be.read == ReadOk(None) || be.read == ReadOk(Some([])) ==> Handle(req, be).body == GiftList([])
  {
  }

  /** A PATCH without a body fails with 500 before the id is looked at: destructuring `req.body` throws. */
  lemma PatchWithoutBodyFails(req: Request, be: Backend)
    requires req.httpMethod == "PATCH" && req.body.NoBody? && be.credentialsOk
    ensures Handle(req, be) == Response(500, BackendError, [])
  {
  }

  /** A PATCH with a body but without an id is refused with 400 before the sheet is read, whatever the sheet holds. */
  lemma PatchWithoutIdRejected(req: Request, be: Backend)
    requires req.httpMethod == "PATCH" && req.body.BodyObject? && be.credentialsOk
    requires req.queryId.None? || req.queryId.value == ""
    ensures Handle(req, be).status == 400 && Handle(req, be).body == Error("ID is required")
    ensures ReadValues !in Handle(req, be).calls
  {
  }

  /** A PATCH against an empty sheet is refused with 404 and writes nothing. */
  lemma PatchOnEmptySheet(req: Request, be: Backend)
    requires req.httpMethod == "PATCH" && req.body.BodyObject? && be.credentialsOk
    requires req.queryId.Some? && req.queryId.value != ""
    requires be.read == ReadOk(None) || be.read == ReadOk(Some([]))
    ensures Handle(req, be) == Response(404, Error("Sheet is empty"), [ReadValues])
  {
  }

  /**
   * Once the sheet is read, PATCH answers 404 "Gift not found" exactly when
   * no data row carries the id in the first id column; otherwise it targets
   * sheet row rowIndex + 1 of the first such row.
   */
  lemma PatchRowLookup(req: Request, be: Backend)
    requires req.httpMethod == "PATCH" && req.body.BodyObject? && be.credentialsOk
    requires req.queryId.Some? && req.queryId.value != ""
    requires be.read.ReadOk? && be.read.values.Some? && |be.read.values.value| > 0
    ensures var rows := be.read.values.value;
      var idCol := IndexOf(rows[0], IdColumn);
      Handle(req, be).status == 404 && Handle(req, be).body == Error("Gift not found") <==>
        forall i :: 1 <= i < |rows| ==> !RowMatches(rows[i], idCol, req.queryId.value)
  {
  }

  /** Without an id header no row ever matches, so every PATCH on a readable non-empty sheet is 404. */
  lemma PatchWithoutIdHeaderNeverFindsRow(req: Request, be: Backend)
    requires req.httpMethod == "PATCH" && req.body.BodyObject? && be.credentialsOk
    requires req.queryId.Some? && req.queryId.value != ""
    requires be.read.ReadOk? && NoIdHeader(be.read.values)
    ensures Handle(req, be) == Response(404, Error("Gift not found"), [ReadValues])
  {
    var rows := be.read.values.value;
    assert IndexOf(rows[0], IdColumn) == -1;
    assert FindRowIndex(rows, -1, req.queryId.value) == -1;
  }

  /**
   * When the row is found: if no key of `data` names a header the answer is
   * 400 with no write; otherwise exactly the planned writes are sent in one
   * batch to the found row, and the status follows the write.
   */
  lemma PatchWrites(req: Request, be: Backend)
    requires req.httpMethod == "PATCH" && req.body.BodyObject? && req.body.data.Some? && be.credentialsOk
    requires req.queryId.Some? && req.queryId.value != ""
    requires be.read.ReadOk? && be.read.values.Some? && |be.read.values.value| > 0
    requires var rows := be.read.values.value;
      FindRowIndex(rows, IndexOf(rows[0], IdColumn), req.queryId.value) != -1
    ensures var rows := be.read.values.value;
      var data := req.body.data.value;
      var rowIndex := FindRowIndex(rows, IndexOf(rows[0], IdColumn), req.queryId.value);
      var r := Handle(req, be);
      && ((forall i :: 0 <= i < |data| ==> data[i].0 !in rows[0]) ==>
            r == Response(400, Error("No valid columns to update"), [ReadValues]))
      && ((exists i :: 0 <= i < |data| && data[i].0 in rows[0]) ==>
            && r.calls == [ReadValues, BatchUpdate(PlanUpdates(rows[0], data, rowIndex + 1))]
            && (r.status == 200 <==> be.writeSucceeds))
  {
  }
}
