/**
 * The claim workflow of the registry page (src/App.jsx) as a step function
 * over the page state. User events (click, typing, cancel, submit) and the
 * completion of an outstanding PATCH are the events; what the network
 * returns is carried by the events, so the remote outcome is an input.
 */
module ClaimWorkflow {
  import opened Wrappers
  import opened JsText
  import opened Seqs
  import opened Json
  import opened SheetRows
  import opened ClaimCache

  /** The gift list a GET returned, or None when the request failed. */
  type Fetch = Option<seq<Record>>

  /** The outcome of the PATCH `fetch`: a rejected promise, or a response with its status. */
  datatype Reply = NetworkError | Status(code: int)

  /** `response.ok` */
  predicate IsOk(reply: Reply) {
    reply.Status? && 200 <= reply.code <= 299
  }

  /** The error banner (`error`), by the failure that set it. */
  datatype Notice = NoNotice | FetchFailed | ClaimFailed | StorageCorrupt

  /** `fetch(`${API_URL}?id=${giftId}`, { method: 'PATCH', body: { data } })` */
  datatype PatchRequest = PatchRequest(giftId: string, data: seq<(string, string)>)

  /** A claim whose PATCH has been sent and not yet answered, with the trimmed name it was made under. */
  datatype InFlight = InFlight(giftId: string, name: string, request: PatchRequest)

  /** The component state of App, plus the browser's localStorage and the PATCHes still outstanding. */
  datatype AppState = AppState(
    gifts: seq<Record>,
    claimingId: Option<string>,
    claimName: string,
    confirmedGift: Option<Record>,
    myClaimed: seq<Record>,
    userName: string,
    storage: Storage,
    notice: Notice,
    inFlight: seq<InFlight>)

  datatype Event =
    | ClaimClick(giftId: string)
    | NameInput(text: string)
    | CancelClaim
    | ClaimSubmit(giftId: string, now: string)
    | PatchDone(index: nat, reply: Reply, refetch: Fetch, nextFetch: Fetch)
    | Retry(fetched: Fetch)

  /** `localStorage.getItem('giftRegistryUserName') || ''` */
  function SavedName(st: Storage): string {
    if NameKey in st && st[NameKey].Text? then st[NameKey].text else ""
  }

  /** The filter of line 233: every gift except those whose id is giftId. */
  function OtherThan(giftId: string): Record -> bool {
    g => !HasId(g, JStr(giftId))
  }

  /** `fetchGifts(false)`: clear the banner, then show the unclaimed gifts, or the failure. */
  function Refresh(s: AppState, fetched: Fetch): AppState {
    match fetched
    case Some(all) => s.(gifts := UnclaimedGifts(all), notice := NoNotice)
    case None => s.(notice := FetchFailed)
  }

  /** The catch of lines 272-281: drop the confirmation, refetch the list, show the error, leave edit mode. */
  function Revert(s: AppState, fetched: Fetch, notice: Notice): AppState {
    Refresh(s.(confirmedGift := None), fetched).(notice := notice, claimingId := None)
  }

  /** The gift shown as confirmed before the server answers (lines 219-230). */
  function Optimistic(gifts: seq<Record>, giftId: string, name: string, now: string): Record {
    FindById(gifts, JStr(giftId)).GetOr(map[])[ClaimedByColumn := name][ClaimedDateColumn := now]
  }

  /** The PATCH body of lines 243-248. */
  function ClaimPayload(name: string, now: string): seq<(string, string)> {
    [(ClaimedByColumn, name), (ClaimedDateColumn, now)]
  }

  /** `claimGift(giftId, claimName)` up to the PATCH being sent (lines 211-249). */
  function Submit(s: AppState, giftId: string, now: string): AppState {
    if Trim(s.claimName) == "" then s
    else
      var name := Trim(s.claimName);
      s.(confirmedGift := Some(Optimistic(s.gifts, giftId, name, now)),
         gifts := Filter(s.gifts, OtherThan(giftId)),
         claimName := "",
         claimingId := None,
         inFlight := s.inFlight + [InFlight(giftId, name, PatchRequest(giftId, ClaimPayload(name, now)))])
  }

  /** `saveClaimedGift` inside claimGift's try: a throw takes the catch, with the next fetch as its refetch. */
  function AfterSave(s: AppState, f: InFlight, catalog: Fetch, nextFetch: Fetch): AppState {
    match SaveClaimedGift(s.storage, f.giftId, f.name, catalog, nextFetch)
    case SaveThrew => Revert(s, nextFetch, StorageCorrupt)
    case Saved(st, claimed) => s.(storage := st, myClaimed := claimed, userName := f.name)
  }

  /** The rest of claimGift once PATCH number i settles (lines 251-281). */
  function Settle(s: AppState, i: nat, reply: Reply, refetch: Fetch, nextFetch: Fetch): AppState
    requires i < |s.inFlight|
  {
    var f := s.inFlight[i];
    var s0 := s.(inFlight := s.inFlight[..i] + s.inFlight[i + 1..]);
    if !IsOk(reply) then Revert(s0, refetch, ClaimFailed)
    else
      var s1 := Refresh(s0, refetch);
      match refetch
      case Some(all) =>
        var s2 :=
          match FindById(all, JStr(f.giftId))
          case Some(updated) => s1.(confirmedGift := Some(updated))
          case None => s1;
        AfterSave(s2, f, Some(all), nextFetch)
      case None => AfterSave(s1, f, None, nextFetch)
  }

  /** One event. */
  function Step(s: AppState, e: Event): AppState {
    match e
    // handleClaimClick, lines 361-366
    case ClaimClick(giftId) => s.(claimingId := Some(giftId), claimName := SavedName(s.storage))
    // the name input's onChange
    case NameInput(text) => s.(claimName := text)
    // handleCancelClaim, lines 372-375
    case CancelClaim => s.(claimingId := None, claimName := "")
    case ClaimSubmit(giftId, now) => Submit(s, giftId, now)
    case PatchDone(i, reply, refetch, nextFetch) =>
      if i < |s.inFlight| then Settle(s, i, reply, refetch, nextFetch) else s
    // the error view's Retry button, line 416: `fetchGifts` alone, with no load of the local claims
    case Retry(fetched) => Refresh(s, fetched)
  }

  /** The initial load (lines 19-69): fetch once, show the unclaimed gifts, load the local claims, pre-fill the name. */
  function Initialize(st: Storage, fetched: Fetch): AppState {
    var s0 := AppState([], None, "", None, [], "", st, NoNotice, []);
    var s1 :=
      match fetched
      case Some(all) =>
        var loaded := LoadAllClaimed(st, Some(all));
        s0.(gifts := UnclaimedGifts(all), myClaimed := loaded.claimed, storage := loaded.storage)
      case None => s0.(notice := FetchFailed);
    var saved := SavedName(s1.storage);
    if saved != "" then s1.(userName := saved, claimName := saved) else s1
  }

  /** An outstanding claim carries a trimmed, non-blank name and exactly the two claim fields. */
  predicate WellFormedClaim(f: InFlight) {
    && f.name != "" && !Blank(f.name) && Trimmed(f.name)
    && f.request.giftId == f.giftId
    && |f.request.data| == 2
    && f.request.data[0] == (ClaimedByColumn, f.name)
    && f.request.data[1].0 == ClaimedDateColumn
  }

  /** What the page keeps true: the list shows only unclaimed gifts, "claimed by you" only claimed ones. */
  ghost predicate Inv(s: AppState) {
    && (forall g :: g in s.gifts ==> IsUnclaimed(g))
    && (forall g :: g in s.myClaimed ==> !IsUnclaimed(g))
    && (forall f :: f in s.inFlight ==> WellFormedClaim(f))
  }

  lemma UnclaimedGiftsAreUnclaimed(all: seq<Record>)
    ensures forall g :: g in UnclaimedGifts(all) ==> IsUnclaimed(g)
  {
    FilterMembers(all, IsUnclaimed);
  }

  lemma LoadShowsOnlyClaimed(st: Storage, catalog: Option<seq<Record>>)
    ensures forall g :: g in LoadAllClaimed(st, catalog).claimed ==> !IsUnclaimed(g)
  {
    ReconcileShowsOnlyClaimed(Migrate(st), catalog);
  }

  lemma RefreshKeepsInv(s: AppState, fetched: Fetch)
    requires Inv(s)
    ensures Inv(Refresh(s, fetched))
  {
    if fetched.Some? {
      UnclaimedGiftsAreUnclaimed(fetched.value);
    }
  }

  lemma AfterSaveKeepsInv(s: AppState, f: InFlight, catalog: Fetch, nextFetch: Fetch)
    requires Inv(s)
    ensures Inv(AfterSave(s, f, catalog, nextFetch))
  {
    match SaveClaimedGift(s.storage, f.giftId, f.name, catalog, nextFetch)
    case SaveThrew => RefreshKeepsInv(s.(confirmedGift := None), nextFetch);
    case Saved(st, claimed) =>
      var st' := RecordClaim(s.storage, f.giftId, f.name).value;
      if catalog.Some? {
        SaveWithCatalogDoesNotPrune(s.storage, f.giftId, f.name, catalog.value, nextFetch);
        ReconcileShowsOnlyClaimed(st', catalog);
      } else {
        LoadShowsOnlyClaimed(st', nextFetch);
      }
  }

  /** The initial load establishes the invariant. */
  lemma InitializeEstablishesInv(st: Storage, fetched: Fetch)
    ensures Inv(Initialize(st, fetched))
  {
    if fetched.Some? {
      UnclaimedGiftsAreUnclaimed(fetched.value);
      LoadShowsOnlyClaimed(st, fetched);
    }
  }

  lemma SubmitKeepsInv(s: AppState, giftId: string, now: string)
    requires Inv(s)
    ensures Inv(Submit(s, giftId, now))
  {
    if Trim(s.claimName) != "" {
      NonEmptyTrim(s.claimName);
      FilterMembers(s.gifts, OtherThan(giftId));
      var s' := Submit(s, giftId, now);
      assert forall f :: f in s'.inFlight ==> f in s.inFlight || f == s'.inFlight[|s.inFlight|];
    }
  }

  lemma RemovalKeepsInv(s: AppState, i: nat)
    requires Inv(s) && i < |s.inFlight|
    ensures Inv(s.(inFlight := s.inFlight[..i] + s.inFlight[i + 1..]))
  {
    var rest := s.inFlight[..i] + s.inFlight[i + 1..];
    assert forall x :: x in rest ==> x in s.inFlight;
  }

  lemma SettleKeepsInv(s: AppState, i: nat, reply: Reply, refetch: Fetch, nextFetch: Fetch)
    requires Inv(s) && i < |s.inFlight|
    ensures Inv(Settle(s, i, reply, refetch, nextFetch))
  {
    var f := s.inFlight[i];
    var s0 := s.(inFlight := s.inFlight[..i] + s.inFlight[i + 1..]);
    RemovalKeepsInv(s, i);
    if !IsOk(reply) {
      RefreshKeepsInv(s0.(confirmedGift := None), refetch);
    } else {
      RefreshKeepsInv(s0, refetch);
      var s1 := Refresh(s0, refetch);
      if refetch.Some? {
        var found := FindById(refetch.value, JStr(f.giftId));
        var s2 := if found.Some? then s1.(confirmedGift := found) else s1;
        AfterSaveKeepsInv(s2, f, refetch, nextFetch);
      } else {
        AfterSaveKeepsInv(s1, f, refetch, nextFetch);
      }
    }
  }

  /** Every event preserves the invariant. */
  lemma StepKeepsInv(s: AppState, e: Event)
    requires Inv(s)
    ensures Inv(Step(s, e))
  {
    match e
    case ClaimSubmit(giftId, now) => SubmitKeepsInv(s, giftId, now);
    case PatchDone(i, reply, refetch, nextFetch) =>
      if i < |s.inFlight| {
        SettleKeepsInv(s, i, reply, refetch, nextFetch);
      }
    case Retry(fetched) => RefreshKeepsInv(s, fetched);
    case _ =>
  }

  /**
   * Retry refetches the catalog and nothing else: the list becomes the
   * unclaimed gifts (or the failure is shown), while storage, the claims
   * listed as yours and the outstanding claims stay as they were, so no
   * legacy entry is migrated.
   */
  lemma RetryOnlyRefreshes(s: AppState, fetched: Fetch)
    ensures var s' := Step(s, Retry(fetched));
      && s'.storage == s.storage && s'.myClaimed == s.myClaimed && s'.inFlight == s.inFlight
      && s'.confirmedGift == s.confirmedGift && s'.claimingId == s.claimingId
      && (fetched.None? ==> s'.gifts == s.gifts && s'.notice == FetchFailed)
      && (fetched.Some? ==> s'.notice == NoNotice && forall g :: g in s'.gifts <==> g in fetched.value && IsUnclaimed(g))
  {
    if fetched.Some? {
      UnclaimedGiftsSpec(fetched.value);
    }
  }

  /** A submit with a blank name changes nothing: no state moves and no PATCH is sent. */
  lemma BlankSubmitChangesNothing(s: AppState, giftId: string, now: string)
    requires Blank(s.claimName)
    ensures Step(s, ClaimSubmit(giftId, now)) == s
  {
    TrimEmptyIffBlank(s.claimName);
  }

  /** A submit with a non-blank name hides exactly the gifts carrying that id, keeping the others in order. */
  lemma SubmitHidesGift(s: AppState, giftId: string, now: string)
    requires Trim(s.claimName) != ""
    ensures var s' := Step(s, ClaimSubmit(giftId, now));
      && (forall g :: g in s'.gifts <==> g in s.gifts && !HasId(g, JStr(giftId)))
      && IsSubsequence(s'.gifts, s.gifts)
  {
    FilterMembers(s.gifts, OtherThan(giftId));
    FilterIsSubsequence(s.gifts, OtherThan(giftId));
  }

  /** The optimistic record is the local gift, if any, with claimedBy and claimedDate set. */
  lemma OptimisticFields(gifts: seq<Record>, giftId: string, name: string, now: string)
    ensures var g := Optimistic(gifts, giftId, name, now);
      var local := FindById(gifts, JStr(giftId));
      && g[ClaimedByColumn] == name && g[ClaimedDateColumn] == now
      && (forall k :: k != ClaimedByColumn && k != ClaimedDateColumn ==>
            (k in g <==> local.Some? && k in local.value)
            && (local.Some? && k in local.value ==> g[k] == local.value[k]))
  {
  }

  /**
   * A submit with a non-blank name confirms the gift at once under the
   * trimmed name and the given time, keeping the local gift's other fields.
   */
  lemma SubmitConfirmsAtOnce(s: AppState, giftId: string, now: string)
    requires Trim(s.claimName) != ""
    ensures var s' := Step(s, ClaimSubmit(giftId, now));
      var name := Trim(s.claimName);
      var local := FindById(s.gifts, JStr(giftId));
      && s'.confirmedGift.Some?
      && s'.confirmedGift.value[ClaimedByColumn] == name
      && s'.confirmedGift.value[ClaimedDateColumn] == now
      && (forall k :: k != ClaimedByColumn && k != ClaimedDateColumn ==>
            (k in s'.confirmedGift.value <==> local.Some? && k in local.value)
            && (local.Some? && k in local.value ==> s'.confirmedGift.value[k] == local.value[k]))
  {
    var name := Trim(s.claimName);
    assert Step(s, ClaimSubmit(giftId, now)).confirmedGift == Some(Optimistic(s.gifts, giftId, name, now));
    OptimisticFields(s.gifts, giftId, name, now);
  }

  /**
   * A submit with a non-blank name clears the draft, leaves edit mode, and
   * sends one PATCH for that id whose body holds exactly claimedBy (the
   * trimmed name) and claimedDate; storage and "claimed by you" wait for the answer.
   */
  lemma SubmitSendsClaim(s: AppState, giftId: string, now: string)
    requires Trim(s.claimName) != ""
    ensures var s' := Step(s, ClaimSubmit(giftId, now));
      var name := Trim(s.claimName);
      && s'.claimName == "" && s'.claimingId == None
      && s'.inFlight == s.inFlight + [InFlight(giftId, name, PatchRequest(giftId, [(ClaimedByColumn, name), (ClaimedDateColumn, now)]))]
      && s'.storage == s.storage && s'.myClaimed == s.myClaimed
  {
  }

  /** Cancel leaves edit mode and clears the draft, and nothing else. */
  lemma CancelClears(s: AppState)
    ensures Step(s, CancelClaim) == s.(claimingId := None, claimName := "")
    ensures Step(s, CancelClaim).claimingId.None? && Step(s, CancelClaim).claimName == ""
  {
  }

  /** Clicking a gift opens its editor with the saved name pre-filled, or an empty draft. */
  lemma ClickPrefills(s: AppState, giftId: string)
    ensures Step(s, ClaimClick(giftId)).claimingId == Some(giftId)
    ensures NameKey in s.storage && s.storage[NameKey] == Text(SavedName(s.storage)) ==>
      Step(s, ClaimClick(giftId)).claimName == SavedName(s.storage)
    ensures NameKey !in s.storage ==> Step(s, ClaimClick(giftId)).claimName == ""
  {
  }

  /**
   * A failed PATCH discards the optimistic confirmation, leaves edit mode,
   * shows the claim error and refetches: every gift the refetch shows as
   * unclaimed, the claimed one included, is listed again. Storage is untouched.
   */
  lemma FailedClaimReverts(s: AppState, i: nat, reply: Reply, refetch: Fetch, nextFetch: Fetch)
    requires i < |s.inFlight| && !IsOk(reply)
    ensures var s' := Step(s, PatchDone(i, reply, refetch, nextFetch));
      && s'.confirmedGift == None && s'.claimingId == None && s'.notice == ClaimFailed
      && s'.inFlight == s.inFlight[..i] + s.inFlight[i + 1..]
      && s'.storage == s.storage && s'.myClaimed == s.myClaimed
      && (refetch.None? ==> s'.gifts == s.gifts)
      && (refetch.Some? ==> forall g :: g in s'.gifts <==> g in refetch.value && IsUnclaimed(g))
  {
    if refetch.Some? {
      FilterMembers(refetch.value, IsUnclaimed);
    }
  }

  /**
   * A successful PATCH whose refetch works: the list is the refetched
   * unclaimed gifts, the confirmation is replaced by the server's record
   * when it has one, and (unless the stored list is corrupt) the id is
   * recorded, the name remembered, and "claimed by you" lists the stored
   * ids still claimed in the refetch.
   */
  lemma SuccessfulClaimIsRecorded(s: AppState, i: nat, reply: Reply, all: seq<Record>, nextFetch: Fetch)
    requires i < |s.inFlight| && IsOk(reply)
    requires RecordClaim(s.storage, s.inFlight[i].giftId, s.inFlight[i].name).Some?
    ensures var f := s.inFlight[i];
      var s' := Step(s, PatchDone(i, reply, Some(all), nextFetch));
      && s'.gifts == UnclaimedGifts(all)
      && (FindById(all, JStr(f.giftId)).Some? ==> s'.confirmedGift == FindById(all, JStr(f.giftId)))
      && (FindById(all, JStr(f.giftId)).None? ==> s'.confirmedGift == s.confirmedGift)
      && s'.storage == RecordClaim(s.storage, f.giftId, f.name).value
      && HasIdList(s'.storage) && JStr(f.giftId) in IdList(s'.storage)
      && s'.userName == f.name && s'.storage[NameKey] == Text(f.name)
      && s'.myClaimed == Reconcile(s'.storage, Some(all)).claimed
      && s'.notice == NoNotice
  {
    var f := s.inFlight[i];
    SaveWithCatalogDoesNotPrune(s.storage, f.giftId, f.name, all, nextFetch);
  }

  /**
   * An accepted PATCH still ends in the catch when the stored id list is
   * present but not an array: recording throws, so the confirmation is
   * dropped, edit mode is left, the error is shown and storage is kept.
   */
  lemma AcceptedClaimWithCorruptListReverts(s: AppState, i: nat, reply: Reply, refetch: Fetch, nextFetch: Fetch)
    requires i < |s.inFlight| && IsOk(reply)
    requires RecordClaim(s.storage, s.inFlight[i].giftId, s.inFlight[i].name).None?
    ensures var s' := Step(s, PatchDone(i, reply, refetch, nextFetch));
      && s'.confirmedGift == None && s'.claimingId == None && s'.notice == StorageCorrupt
      && s'.storage == s.storage && s'.myClaimed == s.myClaimed
      && s'.inFlight == s.inFlight[..i] + s.inFlight[i + 1..]
  {
  }

  /**
   * A successful claim survives a reload when the refetch right after the
   * PATCH works: with storage already migrated, a fresh page load whose
   * catalog still shows the gift claimed lists it under "claimed by you".
   */
  lemma ClaimSurvivesReload(s: AppState, i: nat, reply: Reply, all: seq<Record>, nextFetch: Fetch, later: seq<Record>)
    requires i < |s.inFlight| && IsOk(reply)
    requires Migrate(s.storage) == s.storage
    requires RecordClaim(s.storage, s.inFlight[i].giftId, s.inFlight[i].name).Some?
    requires StillClaimed(later, JStr(s.inFlight[i].giftId))
    ensures var s' := Step(s, PatchDone(i, reply, Some(all), nextFetch));
      FindById(later, JStr(s.inFlight[i].giftId)).value in Initialize(s'.storage, Some(later)).myClaimed
  {
    var f := s.inFlight[i];
    SuccessfulClaimIsRecorded(s, i, reply, all, nextFetch);
    RecordedClaimIsReloaded(s.storage, f.giftId, f.name, later);
  }

  /**
   * The same when the refetch after the PATCH fails: saving then runs a full
   * load of its own (lines 268-271 and 181), which keeps the new id as long
   * as that second read fails too or still shows the gift claimed.
   */
  lemma ClaimSurvivesReloadFallback(s: AppState, i: nat, reply: Reply, nextFetch: Fetch, later: seq<Record>)
    requires i < |s.inFlight| && IsOk(reply)
    requires Migrate(s.storage) == s.storage
    requires RecordClaim(s.storage, s.inFlight[i].giftId, s.inFlight[i].name).Some?
    requires nextFetch.None? || StillClaimed(nextFetch.value, JStr(s.inFlight[i].giftId))
    requires StillClaimed(later, JStr(s.inFlight[i].giftId))
    ensures var s' := Step(s, PatchDone(i, reply, None, nextFetch));
      FindById(later, JStr(s.inFlight[i].giftId)).value in Initialize(s'.storage, Some(later)).myClaimed
  {
    var f := s.inFlight[i];
    FallbackSaveKeepsClaim(s.storage, f.giftId, f.name, nextFetch, later);
    FallbackSettleSaves(s, i, reply, nextFetch);
    InitializeLoads(SaveClaimedGift(s.storage, f.giftId, f.name, None, nextFetch).storage, later);
  }

  /** Without a refetch, an accepted PATCH leaves the storage the catalog-less save produced. */
  lemma FallbackSettleSaves(s: AppState, i: nat, reply: Reply, nextFetch: Fetch)
    requires i < |s.inFlight| && IsOk(reply)
    requires RecordClaim(s.storage, s.inFlight[i].giftId, s.inFlight[i].name).Some?
    ensures var f := s.inFlight[i];
      var saved := SaveClaimedGift(s.storage, f.giftId, f.name, None, nextFetch);
      && saved.Saved?
      && Step(s, PatchDone(i, reply, None, nextFetch)).storage == saved.storage
  {
  }

  /** A page load with a working fetch lists what the load of the stored claims lists. */
  lemma InitializeLoads(st: Storage, all: seq<Record>)
    ensures Initialize(st, Some(all)).myClaimed == LoadAllClaimed(st, Some(all)).claimed
  {
  }
}
