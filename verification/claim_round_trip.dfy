/**
 * Where the page and the server meet. The PATCH the page sends for a claim
 * is a request to the sheet handler, and the handler's status is the reply
 * the page settles the claim with. On a sheet without an `id` header, GET
 * makes ids up from row numbers that PATCH never finds: every claim of
 * such a gift is refused with 404, nothing is written to the sheet, and the
 * page takes its revert path.
 */
module ClaimRoundTrip {
  import opened Wrappers
  import opened JsText
  import opened SheetRows
  import opened ColumnLetters
  import opened SheetsHandler
  import opened ClaimCache
  import opened ClaimWorkflow

  /** The request the handler receives for a claim's PATCH. */
  function Outgoing(p: PatchRequest): Request {
    Request("PATCH", Some(p.giftId), BodyObject(Some(p.data)))
  }

  /** On a sheet without an `id` header, every id GET hands out is refused by PATCH. */
  lemma SynthesisedIdIsUnclaimable(rows: Grid, i: nat, data: Fields, be: Backend)
    requires NoIdHeader(Some(rows)) && i < |ListGifts(Some(rows))|
    requires be.credentialsOk && be.read == ReadOk(Some(rows))
    ensures var id := ListGifts(Some(rows))[i][IdColumn];
      && id == DecimalString(SheetRowNumber(i))
      && Handle(Outgoing(PatchRequest(id, data)), be) == Response(404, Error("Gift not found"), [ReadValues])
  {
    SynthesisedIdsDistinct(Some(rows));
    PatchWithoutIdHeaderNeverFindsRow(Outgoing(PatchRequest(ListGifts(Some(rows))[i][IdColumn], data)), be);
  }

  /**
   * Claiming a gift whose id GET synthesised: the optimistic confirmation
   * is withdrawn, the claim error is shown, storage is untouched, the claim
   * is no longer outstanding, and a refetch of the same sheet lists the
   * gift again when it was unclaimed.
   */
  lemma ClaimOnSynthesisedIdReverts(rows: Grid, i: nat, s: AppState, now: string, be: Backend, refetch: Fetch, nextFetch: Fetch)
    requires NoIdHeader(Some(rows)) && i < |ListGifts(Some(rows))|
    requires be.credentialsOk && be.read == ReadOk(Some(rows))
    requires Trim(s.claimName) != ""
    ensures var gift := ListGifts(Some(rows))[i];
      var s1 := Step(s, ClaimSubmit(gift[IdColumn], now));
      var k := |s.inFlight|;
      var reply := Handle(Outgoing(s1.inFlight[k].request), be);
      var s2 := Step(s1, PatchDone(k, Status(reply.status), refetch, nextFetch));
      && s1.confirmedGift.Some?
      && reply == Response(404, Error("Gift not found"), [ReadValues])
      && s2.confirmedGift == None && s2.notice == ClaimFailed && s2.claimingId == None
      && s2.storage == s.storage && s2.inFlight == s.inFlight
      && (refetch == Some(ListGifts(Some(rows))) && IsUnclaimed(gift) ==> gift in s2.gifts)
  {
    var gift := ListGifts(Some(rows))[i];
    var id := gift[IdColumn];
    SubmitSendsClaim(s, id, now);
    SubmitConfirmsAtOnce(s, id, now);
    var s1 := Step(s, ClaimSubmit(id, now));
    var k := |s.inFlight|;
    SynthesisedIdIsUnclaimable(rows, i, s1.inFlight[k].request.data, be);
    var reply := Handle(Outgoing(s1.inFlight[k].request), be);
    FailedClaimReverts(s1, k, Status(reply.status), refetch, nextFetch);
    assert s1.inFlight[..k] + s1.inFlight[k + 1..] == s.inFlight;
  }

  /** The claim PATCH for a found row writes the name into that row's claimedBy cell, in one batch. */
  lemma ClaimPayloadIsWritten(rows: Grid, giftId: string, name: string, now: string, be: Backend)
    requires be.credentialsOk && be.read == ReadOk(Some(rows)) && |rows| > 0
    requires giftId != "" && FindRowIndex(rows, IndexOf(rows[0], IdColumn), giftId) != -1
    requires ClaimedByColumn in rows[0]
    ensures var reply := Handle(Outgoing(PatchRequest(giftId, ClaimPayload(name, now))), be);
      var rowNumber := FindRowIndex(rows, IndexOf(rows[0], IdColumn), giftId) + 1;
      var cell := CellWrite(A1Range(ColumnName(IndexOf(rows[0], ClaimedByColumn)), rowNumber), name);
      && |reply.calls| == 2 && reply.calls[0] == ReadValues
      && reply.calls[1].BatchUpdate? && cell in reply.calls[1].writes
      && (reply.status == 200 <==> be.writeSucceeds)
  {
    var data := ClaimPayload(name, now);
    var req := Outgoing(PatchRequest(giftId, data));
    PatchWrites(req, be);
    var rowNumber := FindRowIndex(rows, IndexOf(rows[0], IdColumn), giftId) + 1;
    PlanCoversKnownKeys(rows[0], data, rowNumber);
    assert WriteFor(rows[0], data[0], rowNumber) in PlanUpdates(rows[0], data, rowNumber);
  }

  /**
   * On a sheet where PATCH finds the gift's row and has a claimedBy
   * column, a submitted claim is accepted: one batch writes the trimmed
   * name into that row's claimedBy cell, and the reply is a success
   * exactly when the write succeeds.
   */
  lemma ClaimOnFoundRowIsWritten(rows: Grid, s: AppState, giftId: string, now: string, be: Backend)
    requires be.credentialsOk && be.read == ReadOk(Some(rows)) && |rows| > 0
    requires giftId != "" && FindRowIndex(rows, IndexOf(rows[0], IdColumn), giftId) != -1
    requires ClaimedByColumn in rows[0]
    requires Trim(s.claimName) != ""
    ensures var s1 := Step(s, ClaimSubmit(giftId, now));
      var reply := Handle(Outgoing(s1.inFlight[|s.inFlight|].request), be);
      var rowNumber := FindRowIndex(rows, IndexOf(rows[0], IdColumn), giftId) + 1;
      var cell := CellWrite(A1Range(ColumnName(IndexOf(rows[0], ClaimedByColumn)), rowNumber), Trim(s.claimName));
      && |reply.calls| == 2 && reply.calls[0] == ReadValues
      && reply.calls[1].BatchUpdate? && cell in reply.calls[1].writes
      && (IsOk(Status(reply.status)) <==> be.writeSucceeds)
  {
    SubmitSendsClaim(s, giftId, now);
    ClaimPayloadIsWritten(rows, giftId, Trim(s.claimName), now, be);
  }
}
