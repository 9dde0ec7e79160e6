# Secret-santa gift registry — a Dafny model

The registry is a single web page backed by one serverless endpoint. The
endpoint (`api/sheets.js`) turns a Google Sheet into gift records on GET
and claims one gift on PATCH by writing single cells back. The page
(`src/App.jsx`) lists the unclaimed gifts, lets a visitor claim one under
their name, confirms the claim optimistically, and keeps a local record
in `localStorage` of the gifts claimed from that browser.

This project models that behaviour as pure functions over immutable data:

- **The sheet.** The sheet is a grid of string cells (`seq<seq<string>>`) and a
  gift is a record (`map<string, string>`) (`SheetRows`).
- **The handler.** The handler maps a request and the outcome of the backend calls to a
  status, a body and the list of spreadsheet calls made (`SheetsHandler`).
  Column letters are bijective base 26 (`ColumnLetters`).
- **Local storage.** Storage is a map from keys to stored values; a stored value is raw
  text or a parsed JSON document. It is migrated, read back and repaired
  against a catalog snapshot, and appended to when a claim succeeds
  (`ClaimCache`).
- **The claim workflow.** The workflow is a step function over the page state, driven by click,
  typing, cancel and submit events and by the settling of an outstanding
  PATCH. The event carries the reply and the results of any refetch
  (`ClaimWorkflow`).
- **Page and server together.** `ClaimRoundTrip` connects the two halves. Suppose the sheet has no
  `id` header. Then GET makes ids up from row numbers, but PATCH only ever searches an
  `id` column. Every claim of such a gift is therefore refused with 404 and
  nothing is written, and the page withdraws its optimistic confirmation.
  Where PATCH does find the row and the sheet has a `claimedBy` header, the
  trimmed name is written into that row's claimedBy cell.

JavaScript behaviour the source relies on is written out:

- `String.prototype.trim`, with ECMAScript's white space and line terminators (`JsText`).
- `Number.prototype.toString` on row numbers (`JsText`).
- `Array.prototype.filter` and `find` (`Seqs`, `ClaimCache.FindById`).
- Truthiness, and property access on `null` throwing (`Json`).

Where the code and its design description disagree, the model follows the
code. There are four such cases:

- A cell missing from a short row leaves the key absent from the record; it
  is not filled with `''`.
- Ids made up from row numbers cannot be used to address a row. The design
  says PATCH finds a row by its id column or by its synthesised position.
  The code only ever searches the `id` column (api/sheets.js:110-117), so on
  a sheet without that header every such id is answered 404
  (`ClaimRoundTrip.SynthesisedIdIsUnclaimable`).
- A PATCH with no body fails with 500 rather than being refused with 400
  "ID is required". `req.body` is destructured (api/sheets.js:92) before the
  id is checked (line 94) (`SheetsHandler.PatchWithoutBodyFails`).
- A claim is not always listed again on reload:
  - The migration of the legacy `claimedGifts` entry runs only when a full
    load gets that far. That happens after a successful page fetch
    (src/App.jsx:38), or inside the save when the refetch after a claim
    fails (src/App.jsx:270 and 181).
  - If the first page load fails, Retry lists the gifts without loading the
    local claims (`ClaimWorkflow.RetryOnlyRefreshes`). If a claim is then
    recorded with a working refetch, the leftover legacy list is migrated over `claimedGiftIds` on
    the next load, and the new claim disappears
    (`ClaimCache.LegacyOverwritesRecordedClaim`).
  - When the refetch after a claim fails, the save's own full load prunes
    the new id if its read still shows the gift unclaimed
    (`ClaimCache.FallbackSavePrunesClaim`).
  - A stored id list that is present but not an array makes an accepted
    PATCH end in the error path
    (`ClaimWorkflow.AcceptedClaimWithCorruptListReverts`).

  The reload lemmas therefore assume migrated storage and a list that can be
  recorded to, and in the fallback case a save read that still shows the
  claim.

## Model

| member | source | states |
|---|---|---|
| JsText.TrimStartSpec | src/App.jsx:212 | the leading part `trim` drops is all white space, and what remains is a suffix of the input that starts with a non-space |
| JsText.TrimEndSpec | src/App.jsx:212 | the trailing part `trim` drops is all white space, and what remains is a prefix of the input that ends with a non-space |
| JsText.TrimEmptyIffBlank | src/App.jsx:212 | `!name.trim()` holds exactly when the name is empty or white space only |
| JsText.TrimOfNonBlank | src/App.jsx:227 | the trimmed form of a non-blank name is non-empty and non-blank, with no white space at either end |
| JsText.DecimalString | api/sheets.js:81 | `toString` of a row number is a non-empty string of digits |
| JsText.DecimalRoundTrip | api/sheets.js:81 | that string has no superfluous leading zero and reads back as the number |
| JsText.DecimalStringInjective | api/sheets.js:81 | two row numbers give the same id exactly when they are equal |
| Seqs.Filter | src/App.jsx:197 | `filter` keeps only elements that pass, and never lengthens the list |
| Seqs.FilterMembers | src/App.jsx:197 | an element is in the filtered list exactly when it is in the input and passes |
| Seqs.FilterCounts | src/App.jsx:197 | every copy of a passing element survives and no copy of a failing one does, so each element's count is kept or dropped to zero |
| Seqs.FilterIsSubsequence | src/App.jsx:197 | `filter` keeps relative order: the result is a subsequence of the input |
| Seqs.FilterIdempotent | src/App.jsx:34 | filtering an already filtered list again changes nothing |
| Seqs.FilterKeepsAll | src/App.jsx:136 | the filtered list is as long as the input exactly when every element passes, and it is then the input itself |
| Json.Property | src/App.jsx:79 | reading a property throws exactly on `null`, is defined exactly on an object that has the key, and then yields that member |
| SheetRows.CellAt | api/sheets.js:36 | `row[index]` is defined exactly for an index inside the row, and is then that cell |
| SheetRows.RowToObjectSpec | api/sheets.js:33-41 | a key is present exactly when some non-empty header names it within the row's length; its value is the cell under the last such header; a short row leaves keys absent |
| SheetRows.WithRowId | api/sheets.js:79-82 | the id is always non-empty; a non-empty id is kept; a missing or empty id becomes the decimal sheet row number `index + 2`; no other key changes |
| SheetRows.ListGifts | api/sheets.js:72-84 | every record GET returns carries a non-empty id |
| SheetRows.WithRowIdIsRecordOf | api/sheets.js:77-83 | the record built for data row i is the row's record under its headers, with the id rule above |
| SheetRows.ListGiftsSpec | api/sheets.js:72-84 | an absent or empty sheet gives `[]`; otherwise there is exactly one record per data row, in row order, each built from its own row |
| SheetRows.SynthesisedIdsDistinct | api/sheets.js:79-82 | without an `id` header the ids are "2", "3", … in row order and pairwise distinct |
| ColumnLetters.NumeralRoundTrip | api/sheets.js:126-131 | every bijective base-26 numeral is made of capitals and decodes to the number it names |
| ColumnLetters.NumeralOfValue | api/sheets.js:126-131 | every string of capitals is the numeral of its value, so the encoding is onto |
| ColumnLetters.ColumnNameSpec | api/sheets.js:126-131 | a column name is non-empty and all capitals, decodes to `colIndex + 1`, and names distinct columns differently |
| ColumnLetters.ColumnLetter | api/sheets.js:126-131 | the loop terminates and yields that column name, non-empty and all capitals and decoding to `colIndex + 1` |
| SheetsHandler.IndexOf | api/sheets.js:110 | `indexOf` is -1 exactly when the value is absent, and otherwise the first position holding it |
| SheetsHandler.FindRowIndex | api/sheets.js:111-114 | the lookup skips the header row; it is -1 exactly when no data row holds the id in the id column, and otherwise the first data row that does |
| SheetsHandler.PlanUpdates | api/sheets.js:121-138 | there is one write per `data` entry that names a header, in key order, each built from its own entry; the plan is empty exactly when no key names a header |
| SheetsHandler.PlanCoversKnownKeys | api/sheets.js:122-137 | every entry naming a header gets its write, at the header's first index in the target row, and every write comes from such an entry |
| SheetsHandler.PlanCellsDistinct | api/sheets.js:121-138 | with distinct keys, no two planned writes hit the same cell |
| SheetsHandler.Handle | api/sheets.js:43-160 | the status is 200, 400, 404, 405 or 500; once credentials load, it is 405 exactly for a method other than GET, PATCH and OPTIONS; only PATCH writes; OPTIONS is answered 200 with nothing sent |
| SheetsHandler.GetListsGifts | api/sheets.js:64-86 | GET answers 200 with the records built from the sheet it read, `[]` for an empty sheet, and 500 when the read fails |
| SheetsHandler.PatchWithoutBodyFails | api/sheets.js:91-96 | a PATCH with no body is answered 500 before the id is checked or the sheet read |
| SheetsHandler.PatchWithoutIdRejected | api/sheets.js:94-96 | a PATCH with a body but without an id is answered 400 "ID is required" before the sheet is read |
| SheetsHandler.PatchOnEmptySheet | api/sheets.js:105-107 | a PATCH with a body and an id on an empty sheet is answered 404 "Sheet is empty" after one read and no write |
| SheetsHandler.PatchRowLookup | api/sheets.js:110-118 | once a non-empty sheet is read, the answer is 404 "Gift not found" exactly when no data row carries the id |
| SheetsHandler.PatchWithoutIdHeaderNeverFindsRow | api/sheets.js:110-117 | without an `id` header every PATCH with a body and an id on a non-empty sheet is 404 "Gift not found" with no write |
| SheetsHandler.PatchWrites | api/sheets.js:121-152 | for a found row: no known key gives 400 with no write; otherwise exactly the planned writes go out in one batch to sheet row `rowIndex + 1`, and the status is 200 exactly when the write succeeds |
| ClaimCache.UnclaimedGiftsSpec | src/App.jsx:34 | a gift is listed as available exactly when it is in the catalog and its claimedBy is absent or blank, in catalog order |
| ClaimCache.FindById | src/App.jsx:219 | `find` yields nothing exactly when no gift has the id, and otherwise the first gift that has it |
| ClaimCache.Resolve | src/App.jsx:118-133 | the kept ids are the stored ids still claimed in the catalog, in stored order, each paired with its claimed catalog gift |
| ClaimCache.LegacyIds | src/App.jsx:79 | extracting legacy ids throws exactly when an entry is `null`; otherwise it gives the truthy ids of the entries, in order |
| ClaimCache.MigrateSpec | src/App.jsx:72-91 | the legacy key is removed unless it is empty, a non-array or an empty array, and then nothing changes; the id list is overwritten only with a non-empty list of truthy legacy ids, and a non-empty legacy array with at least one truthy id always overwrites it with them; no other key changes |
| ClaimCache.MigrateBikeExample | src/App.jsx:72-91 | a legacy `[{id: "3", item: "Bike"}]` is removed and becomes the id list `["3"]`, whatever list was stored before |
| ClaimCache.MigrateIdempotent | src/App.jsx:72-91 | a second migration changes nothing |
| ClaimCache.ReconcileWithoutList | src/App.jsx:94-105 | a missing, unparsable, non-array or empty id list, or a failed fetch, yields no claimed gifts and leaves storage alone |
| ClaimCache.KeptIdsSpec | src/App.jsx:118-133 | the kept ids are a subsequence of the stored ids, namely those still claimed in the catalog |
| ClaimCache.ReconcileSpec | src/App.jsx:94-142 | claimed gifts come in stored-id order, each found in the catalog and claimed; storage is rewritten only when the list shrank, and the key is removed when nothing remains |
| ClaimCache.ReconcileRewritesOnlyWhenShrunk | src/App.jsx:136-142 | storage is left alone exactly when every stored id is still claimed |
| ClaimCache.ReconcileIdempotent | src/App.jsx:94-142 | a second repair against the same catalog changes nothing and shows the same gifts |
| ClaimCache.ResolveKeptIsStable | src/App.jsx:118-133 | resolving the kept ids again keeps them all |
| ClaimCache.ReconcileShrunkIsStable | src/App.jsx:136-141 | after a shrinking rewrite, the stored list loads unchanged |
| ClaimCache.ReconcileShowsOnlyClaimed | src/App.jsx:124-128 | every gift listed as claimed by you is claimed in the catalog |
| ClaimCache.RecordClaim | src/App.jsx:156-167 | recording throws exactly when a present id list is not an array; otherwise the name is stored and no key other than the id list and the name changes |
| ClaimCache.RecordClaimSpec | src/App.jsx:159-163 | the id is appended only when absent, so other ids and their order are kept; afterwards the list is non-empty and holds the id |
| ClaimCache.RecordClaimIdempotent | src/App.jsx:159-166 | recording the same claim twice is recording it once |
| ClaimCache.SaveWithCatalogDoesNotPrune | src/App.jsx:169-178 | with a catalog, the save keeps the recorded list unpruned and shows the gifts a repair would show |
| ClaimCache.MigratedStaysMigrated | src/App.jsx:155-167 | recording a claim in migrated storage leaves it migrated |
| ClaimCache.RecordedClaimIsReloaded | src/App.jsx:155-167 | in storage that is already migrated, a claim that records without throwing, and whose gift is still claimed, is listed as claimed by you on the next load |
| ClaimCache.FallbackSaveKeepsClaim | src/App.jsx:179-182 | in migrated storage, a save without a catalog whose own read fails or still shows the gift claimed keeps the new id, so a later load that shows the gift claimed lists it |
| ClaimCache.FallbackSavePrunesClaim | src/App.jsx:179-182 | without that read condition this fails: a save whose read shows gift 7 unclaimed drops the id just recorded, and a later load that shows 7 claimed does not list it |
| ClaimCache.LegacyOverwritesRecordedClaim | src/App.jsx:72-91 | without the migration condition this fails: a claim "7" recorded beside a leftover legacy `[{id: "9"}]` is not listed on the next load, although the catalog shows 7 claimed |
| ClaimWorkflow.InitializeEstablishesInv | src/App.jsx:23-61 | after the initial load the list shows only unclaimed gifts, and claimed by you shows only claimed ones |
| ClaimWorkflow.RetryOnlyRefreshes | src/App.jsx:185-209 | the error view's Retry refetches the catalog only: the list becomes its unclaimed gifts or the failure is shown, and storage, your claims and outstanding claims are untouched, so nothing is migrated |
| ClaimWorkflow.StepKeepsInv | src/App.jsx:211-282 | every event keeps that, and keeps every outstanding claim carrying a trimmed non-blank name and exactly the claimedBy and claimedDate fields |
| ClaimWorkflow.BlankSubmitChangesNothing | src/App.jsx:212-215 | a submit with a blank name changes no state and sends no PATCH |
| ClaimWorkflow.SubmitHidesGift | src/App.jsx:233 | a valid submit hides exactly the gifts with that id, keeping the others in order |
| ClaimWorkflow.SubmitConfirmsAtOnce | src/App.jsx:219-230 | a valid submit confirms the local gift at once, with claimedBy set to the trimmed name, claimedDate set to the time and its other fields kept |
| ClaimWorkflow.SubmitSendsClaim | src/App.jsx:234-249 | a valid submit clears the draft and leaves edit mode; one PATCH for the id goes out whose body is exactly claimedBy and claimedDate; storage waits |
| ClaimWorkflow.CancelClears | src/App.jsx:372-375 | cancel clears claimingId and claimName and nothing else |
| ClaimWorkflow.ClickPrefills | src/App.jsx:361-366 | a click opens the gift's editor, pre-filled with the saved name or empty |
| ClaimWorkflow.FailedClaimReverts | src/App.jsx:272-281 | a failed PATCH drops the confirmation, leaves edit mode and shows the error; the refetch lists every unclaimed gift again; storage is untouched |
| ClaimWorkflow.SuccessfulClaimIsRecorded | src/App.jsx:251-270 | when the stored id list is absent, empty or an array, an accepted PATCH with a working refetch shows the refetched list and confirms with the server's record when it has one; the id is recorded, the name remembered, and claimed by you is repaired against the refetch |
| ClaimWorkflow.AcceptedClaimWithCorruptListReverts | src/App.jsx:251-281 | when the stored id list is present but not an array (or not JSON), an accepted PATCH still ends in the catch: the confirmation is dropped, edit mode is left, the error is shown and storage is kept |
| ClaimWorkflow.ClaimSurvivesReload | src/App.jsx:155-183 | in storage that is already migrated and whose id list is absent, empty or an array, after an accepted claim whose immediate refetch succeeds, a reload whose catalog still shows the gift claimed lists it as claimed by you |
| ClaimWorkflow.ClaimSurvivesReloadFallback | src/App.jsx:268-271 | under the same storage conditions, after an accepted claim whose immediate refetch fails, the same holds when the save's own read (src/App.jsx:181) fails too or still shows the gift claimed |
| ClaimRoundTrip.SynthesisedIdIsUnclaimable | api/sheets.js:79-117 | without an `id` header, every id GET hands out is the row-number numeral, and PATCH for it answers 404 "Gift not found" with no write |
| ClaimRoundTrip.ClaimOnSynthesisedIdReverts | src/App.jsx:272-281 | claiming such a gift ends in the revert path; the confirmation is dropped, the error is shown, storage is untouched, and a refetch lists the gift again |
| ClaimRoundTrip.ClaimPayloadIsWritten | api/sheets.js:121-152 | for a found row with a claimedBy column, the claim PATCH writes the name into that row's claimedBy cell, in one batch |
| ClaimRoundTrip.ClaimOnFoundRowIsWritten | src/App.jsx:237-251 | a submitted claim on such a row writes the trimmed name there; the reply is ok exactly when the write succeeds |

## Left out

- Credential loading, the Google auth client, the local credentials file and the CORS headers are I/O. Whether credentials load is a boolean input, and when they fail every method except OPTIONS is answered 500.
- The Sheets API read and batch write are I/O. The read's outcome is an input value, and the batch is an output value (`SheetsHandler.Call`).
- The `A:Z` read range is assumed to be honoured by the backend. Rows are taken as the backend returns them.
- The `USER_ENTERED` coercion the sheet backend applies to written values happens outside the code. The written values are modelled as sent.
- `req.query.id` given as an array, a PATCH `data` that is not an object, and the exception text in 500 bodies are not modelled. The id is one string, `data` is an ordered list of string fields or absent, and a 500 body is `BackendError`.
- The page's `fetch`, `AbortController` and the React StrictMode double request are async plumbing. Each fetch result is carried by the event that needs it, the workflow is sequential, and an abort is not modelled.
- `loading` and the skeleton view, JSX rendering, `alert`, `console.error`, closing the confirmation, the ICS download and the clipboard copy are display only.
- The time from `new Date().toISOString()` is an opaque string input of the submit event.
- React's stale closure over `gifts` in `claimGift` is not modelled: the gift list is filtered as it stands when the event is processed. Concurrent claims and the sheet's last-write-wins behaviour are not modelled either; they are not enforced by any code.
- `encodeURIComponent` is never applied to the id in the PATCH URL. The model sends the id unchanged, which holds for ids without URL-reserved characters.
- ClaimCache.RecordClaim: a stored id list that parses to a JSON string is treated as throwing. In JavaScript, `includes` on a string containing the id succeeds, and only `push` on a string not containing it throws.
- ClaimWorkflow.ClickPrefills: a saved name stored as something other than plain text pre-fills the empty draft. The browser would show the stored text.
- ClaimWorkflow.ClaimSurvivesReload: the promise that a claim is listed again on reload is stated only for migrated storage whose id list can be recorded to, and only when the refetch after the PATCH succeeds. The code breaks the promise otherwise. `ClaimCache.LegacyOverwritesRecordedClaim` and `ClaimWorkflow.AcceptedClaimWithCorruptListReverts` show those failures.
- ClaimWorkflow.ClaimSurvivesReloadFallback: when the refetch after the PATCH fails, the promise additionally needs the save's own read to fail or still show the gift claimed. `ClaimCache.FallbackSavePrunesClaim` shows that it fails otherwise.
- Strings are sequences of Unicode scalar values, not UTF-16 code units. This matters only for `trim` on lone surrogates, which it never removes either way.
- The key order `Object.keys` gives for integer-like keys is not modelled: the PATCH `data` fields are taken in the order given.
