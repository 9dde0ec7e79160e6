/**
 * The device-local record of the gifts this browser has claimed
 * (src/App.jsx): the current format is a JSON array of gift ids under
 * "claimedGiftIds"; an older format, a JSON array of whole gift objects
 * under "claimedGifts", is migrated on every load. The stored list is
 * repaired against a catalog snapshot on every read.
 */
module ClaimCache {
  import opened Wrappers
  import opened JsText
  import opened Seqs
  import opened Json
  import opened SheetRows

  /**
   * What localStorage holds under a key, as the code observes it: text the
   * program wrote as is, or the text of a JSON document. JSON.parse is
   * taken to reject every Text (the empty string included); the program
   * only parses keys it writes with JSON.stringify, so a Text there stands
   * for corrupted data.
   */
  datatype Stored = Text(text: string) | Document(value: Json)

  /** `localStorage`: key to stored value; an absent key reads as `null`. */
  type Storage = map<string, Stored>

  const LegacyKey := "claimedGifts"
  const IdsKey := "claimedGiftIds"
  const NameKey := "giftRegistryUserName"

  /** `if (localStorage.getItem(key))`: present and not the empty string. */
  predicate Present(st: Storage, key: string) {
    key in st && (st[key].Document? || st[key].text != "")
  }

  /** `JSON.parse(localStorage.getItem(key))`, None when it throws. */
  function Parse(v: Stored): Option<Json> {
    match v
    case Text(_) => None
    case Document(value) => Some(value)
  }

  // ---------------------------------------------------------------------
  // The catalog as the client sees it
  // ---------------------------------------------------------------------

  /** Lines 34 and 197: `!gift.claimedBy || gift.claimedBy.trim() === ''` (see TrimEmptyIffBlank). */
  predicate IsUnclaimed(g: Record) {
    ClaimedByColumn !in g || Blank(g[ClaimedByColumn])
  }

  /** The gifts still available, in catalog order. */
  function UnclaimedGifts(gifts: seq<Record>): seq<Record> {
    Filter(gifts, IsUnclaimed)
  }

  /** A gift is listed as available exactly when it is in the catalog and unclaimed, and the order is kept. */
  lemma UnclaimedGiftsSpec(gifts: seq<Record>)
    ensures forall g :: g in UnclaimedGifts(gifts) <==> g in gifts && IsUnclaimed(g)
    ensures IsSubsequence(UnclaimedGifts(gifts), gifts)
  {
    FilterIsSubsequence(gifts, IsUnclaimed);
    FilterMembers(gifts, IsUnclaimed);
  }

  /** `g.id === id`: a stored id matches only a gift whose id is that very string. */
  predicate HasId(g: Record, id: Json) {
    IdColumn in g && id == JStr(g[IdColumn])
  }

  /** `catalog.find(g => g.id === id)` */
  function FindById(catalog: seq<Record>, id: Json): (r: Option<Record>)
    ensures r.None? <==> forall i :: 0 <= i < |catalog| ==> !HasId(catalog[i], id)
    ensures r.Some? ==> exists i :: 0 <= i < |catalog| && catalog[i] == r.value && HasId(r.value, id)
                                  && forall j :: 0 <= j < i ==> !HasId(catalog[j], id)
  {
    if catalog == [] then None
    else if HasId(catalog[0], id) then Some(catalog[0])
    else
      var r := FindById(catalog[1..], id);
      assert forall i :: 1 <= i < |catalog| ==> catalog[i] == catalog[1..][i - 1];
      r
  }

  /** The stored id resolves to a gift the catalog still shows as claimed. */
  predicate StillClaimed(catalog: seq<Record>, id: Json) {
    var g := FindById(catalog, id);
    g.Some? && !IsUnclaimed(g.value)
  }

  function StillClaimedIn(catalog: seq<Record>): Json -> bool {
    id => StillClaimed(catalog, id)
  }

  /** Lines 118-133: the ids that survive, and their gifts, in stored order. */
  function Resolve(ids: seq<Json>, catalog: seq<Record>): (r: (seq<Json>, seq<Record>))
    ensures r.0 == Filter(ids, StillClaimedIn(catalog))
    ensures |r.1| == |r.0|
    ensures forall k :: 0 <= k < |r.0| ==> FindById(catalog, r.0[k]) == Some(r.1[k]) && !IsUnclaimed(r.1[k])
  {
    if ids == [] then ([], [])
    else
      var rest := Resolve(ids[1..], catalog);
      var g := FindById(catalog, ids[0]);
      if g.Some? && !IsUnclaimed(g.value) then
        assert StillClaimedIn(catalog)(ids[0]);
        ([ids[0]] + rest.0, [g.value] + rest.1)
      else
        assert !StillClaimedIn(catalog)(ids[0]);
        rest
  }

  // ---------------------------------------------------------------------
  // Migration from the legacy format (lines 72-91)
  // ---------------------------------------------------------------------

  /** The legacy object carries a truthy `id`, so the migration keeps it. */
  predicate HasTruthyId(item: Json) {
    item.JObj? && "id" in item.members && Truthy(item.members["id"])
  }

  /** `items.map(gift => gift.id).filter(id => id)`, None when some item is `null` (reading `.id` throws). */
  function LegacyIds(items: seq<Json>): (r: Option<seq<Json>>)
    ensures r.None? <==> exists i :: 0 <= i < |items| && items[i] == JNull
    ensures r.Some? ==> LegacyIdsOf(items, r.value)
  {
    if items == [] then Some([])
    else
      var rest := LegacyIds(items[1..]);
      if Property(items[0], "id").Throws? then None
      else if rest.None? then
        NullInTail(items);
        None
      else
        LegacyIdsCons(items, rest.value);
        if HasTruthyId(items[0]) then Some([items[0].members["id"]] + rest.value) else rest
  }

  /** ids are the `id` values of the items that have a truthy one, in order. */
  predicate LegacyIdsOf(items: seq<Json>, ids: seq<Json>) {
    var kept := Filter(items, HasTruthyId);
    |ids| == |kept| && forall k :: 0 <= k < |kept| ==> ids[k] == kept[k].members["id"]
  }

  lemma NullInTail(items: seq<Json>)
    requires items != [] && exists i :: 0 <= i < |items[1..]| && items[1..][i] == JNull
    ensures exists i :: 0 <= i < |items| && items[i] == JNull
  {
    var i :| 0 <= i < |items[1..]| && items[1..][i] == JNull;
    assert items[i + 1] == JNull;
  }

  lemma LegacyIdsCons(items: seq<Json>, ids: seq<Json>)
    requires items != [] && items[0] != JNull
    requires !exists i :: 0 <= i < |items[1..]| && items[1..][i] == JNull
    requires LegacyIdsOf(items[1..], ids)
    ensures !exists i :: 0 <= i < |items| && items[i] == JNull
    ensures LegacyIdsOf(items, if HasTruthyId(items[0]) then [items[0].members["id"]] + ids else ids)
  {
    assert forall i :: 1 <= i < |items| ==> items[i] == items[1..][i - 1];
    assert Filter(items, HasTruthyId)
      == (if HasTruthyId(items[0]) then [items[0]] else []) + Filter(items[1..], HasTruthyId);
  }

  /** The legacy entry is left where it is: the empty string, a non-array document, or an empty array. */
  predicate LegacyStays(v: Stored) {
    v == Text("") || (v.Document? && (!v.value.JArr? || |v.value.items| == 0))
  }

  /** One run of the migration. */
  function Migrate(st: Storage): Storage {
    if !Present(st, LegacyKey) then st
    else match Parse(st[LegacyKey])
      case None => st - {LegacyKey}
      case Some(JArr(items)) =>
        if |items| == 0 then st
        else (match LegacyIds(items)
          case None => st - {LegacyKey}
          case Some(ids) => (if |ids| > 0 then st[IdsKey := Document(JArr(ids))] else st) - {LegacyKey})
      case Some(_) => st
  }

  /**
   * The migration removes the legacy entry unless that entry stays (it
   * then changes nothing at all); it rewrites the id list only with the
   * non-empty list of truthy legacy ids; it touches no other key.
   */
  lemma MigrateSpec(st: Storage)
    ensures LegacyKey in Migrate(st) <==> LegacyKey in st && LegacyStays(st[LegacyKey])
    ensures LegacyKey in st && LegacyStays(st[LegacyKey]) ==> Migrate(st) == st
    ensures LegacyKey !in st ==> Migrate(st) == st
    ensures forall k :: k != LegacyKey && k != IdsKey ==> (k in Migrate(st) <==> k in st) && (k in st ==> Migrate(st)[k] == st[k])
    ensures (IdsKey in Migrate(st) <==> IdsKey in st) || IdsKey in Migrate(st)
    ensures IdsKey in Migrate(st) && (IdsKey !in st || Migrate(st)[IdsKey] != st[IdsKey]) ==>
      && LegacyKey in st && st[LegacyKey].Document? && st[LegacyKey].value.JArr?
      && var ids := LegacyIds(st[LegacyKey].value.items);
         ids.Some? && |ids.value| > 0 && Migrate(st)[IdsKey] == Document(JArr(ids.value))
    ensures (&& LegacyKey in st && st[LegacyKey].Document? && st[LegacyKey].value.JArr? && |st[LegacyKey].value.items| > 0
             && LegacyIds(st[LegacyKey].value.items).Some? && |LegacyIds(st[LegacyKey].value.items).value| > 0) ==>
      IdsKey in Migrate(st) && Migrate(st)[IdsKey] == Document(JArr(LegacyIds(st[LegacyKey].value.items).value))
  {
  }

  /** The design's own example: a legacy `[{id: "3", item: "Bike"}]` becomes the id list `["3"]`, over any earlier list. */
  lemma MigrateBikeExample(st: Storage)
    requires LegacyKey in st && st[LegacyKey] == Document(JArr([JObj(map["id" := JStr("3"), "item" := JStr("Bike")])]))
    ensures LegacyKey !in Migrate(st)
    ensures Migrate(st)[IdsKey] == Document(JArr([JStr("3")]))
  {
    var item := JObj(map["id" := JStr("3"), "item" := JStr("Bike")]);
    assert [item][1..] == [];
    assert LegacyIds([item][1..]) == Some([]);
    assert HasTruthyId([item][0]);
    assert item.members["id"] == JStr("3");
    assert LegacyIds([item]) == Some([[item][0].members["id"]] + []);
    assert [[item][0].members["id"]] + [] == [JStr("3")];
  }

  /**
   * Where the code and its design disagree: the migration runs only when a
   * load reaches it, so a legacy entry still present when a claim is
   * recorded (the first load failed) overwrites the recorded list on the
   * next load, and the new claim is no longer listed.
   */
  lemma LegacyOverwritesRecordedClaim()
    ensures var st := map[LegacyKey := Document(JArr([JObj(map["id" := JStr("9")])]))];
      var gift: Record := map[IdColumn := "7", ClaimedByColumn := "Pat"];
      && RecordClaim(st, "7", "Pat").Some?
      && StillClaimed([gift], JStr("7"))
      && gift !in LoadAllClaimed(RecordClaim(st, "7", "Pat").value, Some([gift])).claimed
  {
    var item := JObj(map["id" := JStr("9")]);
    var st := map[LegacyKey := Document(JArr([item]))];
    var gift: Record := map[IdColumn := "7", ClaimedByColumn := "Pat"];
    var catalog := [gift];
    assert "Pat"[0] == 'P' && !IsJsSpace("Pat"[0]);
    assert !Blank("Pat");
    assert FindById(catalog, JStr("7")) == Some(gift);
    assert StillClaimed(catalog, JStr("7"));
    assert [item][1..] == [];
    assert LegacyIds([item][1..]) == Some([]);
    assert HasTruthyId([item][0]);
    assert item.members["id"] == JStr("9");
    assert LegacyIds([item]) == Some([[item][0].members["id"]] + []);
    assert [[item][0].members["id"]] + [] == [JStr("9")];
    var st' := RecordClaim(st, "7", "Pat").value;
    assert st'[LegacyKey] == st[LegacyKey];
    var m := Migrate(st');
    assert m[IdsKey] == Document(JArr([JStr("9")]));
    assert HasIdList(m) && IdList(m) == [JStr("9")];
    assert FindById(catalog, JStr("9")) == None;
    assert !StillClaimed(catalog, JStr("9"));
    ReconcileSpec(m, catalog);
    assert Filter([JStr("9")], StillClaimedIn(catalog)) == [];
  }

  /** A second run of the migration is a no-op, whatever the first one did. */
  lemma MigrateIdempotent(st: Storage)
    ensures Migrate(Migrate(st)) == Migrate(st)
  {
    MigrateSpec(st);
    MigrateSpec(Migrate(st));
  }

  // ---------------------------------------------------------------------
  // Read-repair against a catalog (lines 93-148)
  // ---------------------------------------------------------------------

  /** The storage after a load, and the gifts shown as "claimed by you". */
  datatype Loaded = Loaded(storage: Storage, claimed: seq<Record>)

  /**
   * Lines 93-148 after the migration: `catalog` is the snapshot used (None
   * when fetching one failed, which the catch turns into no claims).
   */
  function Reconcile(st: Storage, catalog: Option<seq<Record>>): Loaded {
    if !Present(st, IdsKey) then Loaded(st, [])
    else match Parse(st[IdsKey])
      case Some(JArr(ids)) =>
        if |ids| == 0 || catalog.None? then Loaded(st, [])
        else
          var (kept, claimed) := Resolve(ids, catalog.value);
          if |kept| == |ids| then Loaded(st, claimed)
          else if |kept| == 0 then Loaded(st - {IdsKey}, claimed)
          else Loaded(st[IdsKey := Document(JArr(kept))], claimed)
      case _ => Loaded(st, [])
  }

  /** The id list a load would work from, when it is a non-empty array. */
  predicate HasIdList(st: Storage) {
    Present(st, IdsKey) && st[IdsKey].Document? && st[IdsKey].value.JArr? && |st[IdsKey].value.items| > 0
  }

  function IdList(st: Storage): seq<Json>
    requires HasIdList(st)
  {
    st[IdsKey].value.items
  }

  /** A missing, unparsable, non-array or empty list (or no catalog) yields no claims and leaves storage alone. */
  lemma ReconcileWithoutList(st: Storage, catalog: Option<seq<Record>>)
    requires !HasIdList(st) || catalog.None?
    ensures Reconcile(st, catalog) == Loaded(st, [])
  {
  }

  /** The ids a repair keeps are exactly the stored ids that resolve to a claimed gift, in stored order. */
  lemma KeptIdsSpec(ids: seq<Json>, catalog: seq<Record>)
    ensures IsSubsequence(Filter(ids, StillClaimedIn(catalog)), ids)
    ensures forall x :: x in Filter(ids, StillClaimedIn(catalog)) <==> x in ids && StillClaimed(catalog, x)
  {
    var kept := Filter(ids, StillClaimedIn(catalog));
    FilterIsSubsequence(ids, StillClaimedIn(catalog));
    FilterMembers(ids, StillClaimedIn(catalog));
  }

  /** How a repair with a list and a catalog unfolds: Resolve, then rewrite only if the list shrank. */
  lemma ReconcileUnfold(st: Storage, catalog: seq<Record>)
    requires HasIdList(st)
    ensures var res := Resolve(IdList(st), catalog);
      Reconcile(st, Some(catalog)) ==
        if |res.0| == |IdList(st)| then Loaded(st, res.1)
        else if |res.0| == 0 then Loaded(st - {IdsKey}, res.1)
        else Loaded(st[IdsKey := Document(JArr(res.0))], res.1)
  {
    assert Parse(st[IdsKey]) == Some(JArr(IdList(st)));
  }

  /**
   * With a list and a catalog: the claims shown are the gifts of the kept
   * ids in stored order, all still claimed; the kept ids are exactly the
   * stored ids that resolve to a claimed gift, in stored order; storage is
   * rewritten only when the list shrank, and the key is removed when
   * nothing remains.
   */
  lemma ReconcileSpec(st: Storage, catalog: seq<Record>)
    requires HasIdList(st)
    ensures var r := Reconcile(st, Some(catalog));
      var ids := IdList(st);
      var kept := Filter(ids, StillClaimedIn(catalog));
      && IsSubsequence(kept, ids)
      && (forall x :: x in kept <==> x in ids && StillClaimed(catalog, x))
      && |r.claimed| == |kept|
      && (forall k :: 0 <= k < |kept| ==> FindById(catalog, kept[k]) == Some(r.claimed[k]) && !IsUnclaimed(r.claimed[k]))
      && (|kept| == |ids| ==> r.storage == st)
      && (|kept| == 0 ==> r.storage == st - {IdsKey})
      && (0 < |kept| < |ids| ==> r.storage == st[IdsKey := Document(JArr(kept))])
  {
    KeptIdsSpec(IdList(st), catalog);
    ReconcileUnfold(st, catalog);
  }

  /** Repairing twice against the same catalog is the same as repairing once. */
  lemma ReconcileIdempotent(st: Storage, catalog: Option<seq<Record>>)
    ensures Reconcile(Reconcile(st, catalog).storage, catalog) == Reconcile(st, catalog)
  {
    if !HasIdList(st) || catalog.None? {
      ReconcileWithoutList(st, catalog);
    } else {
      var ids := IdList(st);
      var res := Resolve(ids, catalog.value);
      ReconcileUnfold(st, catalog.value);
      if |res.0| == 0 {
        assert res.1 == [];
        ReconcileWithoutList(st - {IdsKey}, catalog);
      } else if |res.0| < |ids| {
        ReconcileShrunkIsStable(st, catalog.value);
      }
    }
  }

  /** Resolving the surviving ids again keeps all of them and finds the same gifts. */
  lemma ResolveKeptIsStable(ids: seq<Json>, catalog: seq<Record>)
    ensures Resolve(Resolve(ids, catalog).0, catalog) == Resolve(ids, catalog)
  {
    var res := Resolve(ids, catalog);
    var res' := Resolve(res.0, catalog);
    FilterIdempotent(ids, StillClaimedIn(catalog));
    assert res'.0 == res.0;
    forall k | 0 <= k < |res.1|
      ensures res'.1[k] == res.1[k]
    {
      assert FindById(catalog, res.0[k]) == Some(res'.1[k]);
    }
  }

  /** After a repair that shrank the list, repairing again keeps the list and shows the same gifts. */
  lemma ReconcileShrunkIsStable(st: Storage, catalog: seq<Record>)
    requires HasIdList(st)
    requires 0 < |Resolve(IdList(st), catalog).0| < |IdList(st)|
    ensures var res := Resolve(IdList(st), catalog);
      var st' := st[IdsKey := Document(JArr(res.0))];
      Reconcile(st', Some(catalog)) == Loaded(st', res.1)
  {
    var res := Resolve(IdList(st), catalog);
    var st' := st[IdsKey := Document(JArr(res.0))];
    assert HasIdList(st') && IdList(st') == res.0;
    ReconcileUnfold(st', catalog);
    ResolveKeptIsStable(IdList(st), catalog);
  }

  /** A load leaves storage untouched exactly when every stored id is still claimed in the catalog. */
  lemma ReconcileRewritesOnlyWhenShrunk(st: Storage, catalog: seq<Record>)
    requires HasIdList(st)
    ensures Reconcile(st, Some(catalog)).storage == st <==>
      forall i :: 0 <= i < |IdList(st)| ==> StillClaimed(catalog, IdList(st)[i])
  {
    var ids := IdList(st);
    var kept := Filter(ids, StillClaimedIn(catalog));
    ReconcileSpec(st, catalog);
    FilterKeepsAll(ids, StillClaimedIn(catalog));
    if |kept| == 0 && |ids| > 0 {
      assert IdsKey !in st - {IdsKey};
    } else if 0 < |kept| < |ids| {
      assert st[IdsKey := Document(JArr(kept))][IdsKey] != st[IdsKey];
    }
  }

  /** Every gift a repair shows as "claimed by you" is claimed in the catalog. */
  lemma ReconcileShowsOnlyClaimed(st: Storage, catalog: Option<seq<Record>>)
    ensures forall g :: g in Reconcile(st, catalog).claimed ==> !IsUnclaimed(g)
  {
    if HasIdList(st) && catalog.Some? {
      ReconcileSpec(st, catalog.value);
    } else {
      ReconcileWithoutList(st, catalog);
    }
  }

  /** `loadAllClaimedGifts`: migrate, then repair the id list against the catalog. */
  function LoadAllClaimed(st: Storage, catalog: Option<seq<Record>>): Loaded {
    Reconcile(Migrate(st), catalog)
  }

  // ---------------------------------------------------------------------
  // Recording a claim (lines 155-183)
  // ---------------------------------------------------------------------

  /**
   * Lines 156-166: append the id when it is absent, then store the
   * claimant's name. None when the stored list cannot be parsed or is not
   * an array (JSON.parse or `includes` throws).
   */
  function RecordClaim(st: Storage, giftId: string, name: string): (r: Option<Storage>)
    ensures r.None? <==> Present(st, IdsKey) && !(st[IdsKey].Document? && st[IdsKey].value.JArr?)
    ensures r.Some? ==> NameKey in r.value && r.value[NameKey] == Text(name)
    ensures r.Some? ==> forall k :: k != IdsKey && k != NameKey ==>
      (k in r.value <==> k in st) && (k in st ==> r.value[k] == st[k])
  {
    var ids :=
      if !Present(st, IdsKey) then Some([])
      else match Parse(st[IdsKey])
        case Some(JArr(items)) => Some(items)
        case _ => None;
    if ids.None? then None
    else
      var st1 :=
        if JStr(giftId) in ids.value then st
        else st[IdsKey := Document(JArr(ids.value + [JStr(giftId)]))];
      Some(st1[NameKey := Text(name)])
  }

  /** The id list as `saveClaimedGift` reads it: a missing or empty entry is the empty list. */
  function ListBefore(st: Storage): seq<Json>
  {
    if Present(st, IdsKey) && st[IdsKey].Document? && st[IdsKey].value.JArr? then st[IdsKey].value.items else []
  }

  /**
   * Recording appends the id exactly when it is absent and keeps the other
   * ids in their order; a recorded id is always in the list afterwards.
   */
  lemma RecordClaimSpec(st: Storage, giftId: string, name: string)
    requires RecordClaim(st, giftId, name).Some?
    ensures var st' := RecordClaim(st, giftId, name).value;
      var before := ListBefore(st);
      && (JStr(giftId) in before ==> (IdsKey in st' <==> IdsKey in st) && (IdsKey in st ==> st'[IdsKey] == st[IdsKey]))
      && (JStr(giftId) !in before ==> st'[IdsKey] == Document(JArr(before + [JStr(giftId)])))
      && HasIdList(st') && JStr(giftId) in IdList(st')
      && (JStr(giftId) in before ==> IdList(st') == before)
  {
  }

  /** Recording the same claim twice leaves the same storage as recording it once. */
  lemma RecordClaimIdempotent(st: Storage, giftId: string, name: string)
    requires RecordClaim(st, giftId, name).Some?
    ensures RecordClaim(RecordClaim(st, giftId, name).value, giftId, name) == RecordClaim(st, giftId, name)
  {
    RecordClaimSpec(st, giftId, name);
    var st' := RecordClaim(st, giftId, name).value;
    assert st'[NameKey := Text(name)] == st';
  }

  /** The outcome of `saveClaimedGift`: it throws, or leaves storage and the claimed list. */
  datatype SaveOutcome = SaveThrew | Saved(storage: Storage, claimed: seq<Record>)

  /**
   * `saveClaimedGift(giftId, name, catalog)`. With a catalog it lists the
   * stored ids still claimed there without pruning storage; without one it
   * runs a full load, whose own fetch yields `fetched`.
   */
  function SaveClaimedGift(st: Storage, giftId: string, name: string,
                           catalog: Option<seq<Record>>, fetched: Option<seq<Record>>): SaveOutcome
  {
    match RecordClaim(st, giftId, name)
    case None => SaveThrew
    case Some(st') =>
      if catalog.Some? then Saved(st', Resolve(IdList(st'), catalog.value).1)
      else
        var loaded := LoadAllClaimed(st', fetched);
        Saved(loaded.storage, loaded.claimed)
  }

  /** Given a catalog, saving filters like a load but leaves the recorded list unpruned. */
  lemma SaveWithCatalogDoesNotPrune(st: Storage, giftId: string, name: string, catalog: seq<Record>, fetched: Option<seq<Record>>)
    requires RecordClaim(st, giftId, name).Some?
    ensures var r := SaveClaimedGift(st, giftId, name, Some(catalog), fetched);
      && r.Saved?
      && r.storage == RecordClaim(st, giftId, name).value
      && HasIdList(r.storage) && JStr(giftId) in IdList(r.storage)
      && r.claimed == Reconcile(r.storage, Some(catalog)).claimed
  {
    RecordClaimSpec(st, giftId, name);
  }

  /**
   * Saving without a catalog prunes against its own read: an id just
   * recorded for a gift that read still shows unclaimed is dropped, so a
   * later load that does show the gift claimed no longer lists it.
   */
  lemma FallbackSavePrunesClaim()
    ensures var unclaimed: Record := map[IdColumn := "7"];
      var claimed: Record := map[IdColumn := "7", ClaimedByColumn := "Pat"];
      var r := SaveClaimedGift(map[], "7", "Pat", None, Some([unclaimed]));
      && r.Saved? && IdsKey !in r.storage
      && StillClaimed([claimed], JStr("7"))
      && LoadAllClaimed(r.storage, Some([claimed])).claimed == []
  {
    var unclaimed: Record := map[IdColumn := "7"];
    var claimed: Record := map[IdColumn := "7", ClaimedByColumn := "Pat"];
    assert "Pat"[0] == 'P' && !IsJsSpace("Pat"[0]);
    assert !Blank("Pat");
    assert FindById([claimed], JStr("7")) == Some(claimed);
    assert FindById([unclaimed], JStr("7")) == Some(unclaimed);
    assert !StillClaimed([unclaimed], JStr("7"));
    var st' := RecordClaim(map[], "7", "Pat").value;
    RecordClaimSpec(map[], "7", "Pat");
    assert [] + [JStr("7")] == [JStr("7")];
    assert st'[IdsKey] == Document(JArr([JStr("7")]));
    assert Migrate(st') == st';
    assert HasIdList(st') && IdList(st') == [JStr("7")];
    ReconcileSpec(st', [unclaimed]);
    assert Filter([JStr("7")], StillClaimedIn([unclaimed])) == [];
    var r := SaveClaimedGift(map[], "7", "Pat", None, Some([unclaimed]));
    assert IdsKey !in r.storage;
    ReconcileWithoutList(r.storage, Some([claimed]));
  }

  /**
   * Saving without a catalog keeps a new claim for the next load: in
   * migrated storage, when the save's own read fails or still shows the
   * gift claimed, a later load that shows it claimed lists it.
   */
  lemma FallbackSaveKeepsClaim(st: Storage, giftId: string, name: string, fetched: Option<seq<Record>>, later: seq<Record>)
    requires Migrate(st) == st
    requires RecordClaim(st, giftId, name).Some?
    requires fetched.None? || StillClaimed(fetched.value, JStr(giftId))
    requires StillClaimed(later, JStr(giftId))
    ensures SaveClaimedGift(st, giftId, name, None, fetched).Saved?
    ensures FindById(later, JStr(giftId)).value in LoadAllClaimed(SaveClaimedGift(st, giftId, name, None, fetched).storage, Some(later)).claimed
  {
    var st' := RecordClaim(st, giftId, name).value;
    MigratedStaysMigrated(st, giftId, name);
    RecordClaimSpec(st, giftId, name);
    if fetched.None? {
      ReconcileWithoutList(st', fetched);
      RecordedClaimIsReloaded(st, giftId, name, later);
    } else {
      ReconcileSpec(st', fetched.value);
      KeptIdsSpec(IdList(st'), fetched.value);
      var st2 := SaveClaimedGift(st, giftId, name, None, fetched).storage;
      assert JStr(giftId) in Filter(IdList(st'), StillClaimedIn(fetched.value));
      assert HasIdList(st2) && JStr(giftId) in IdList(st2);
      FallbackReloads(st', st2, giftId, later);
    }
  }

  /** The storage a pruning load leaves behind is still migrated and lists a still-claimed id on the next load. */
  lemma FallbackReloads(st': Storage, st2: Storage, giftId: string, later: seq<Record>)
    requires Migrate(st') == st'
    requires forall k :: k != IdsKey ==> (k in st2 <==> k in st') && (k in st' ==> st2[k] == st'[k])
    requires HasIdList(st2) && JStr(giftId) in IdList(st2)
    requires StillClaimed(later, JStr(giftId))
    ensures FindById(later, JStr(giftId)).value in LoadAllClaimed(st2, Some(later)).claimed
  {
    MigrateSpec(st');
    MigrateSpec(st2);
    assert Migrate(st2) == st2;
    ReconcileSpec(st2, later);
    KeptIdsSpec(IdList(st2), later);
    var kept2 := Filter(IdList(st2), StillClaimedIn(later));
    assert JStr(giftId) in kept2;
    var k :| 0 <= k < |kept2| && kept2[k] == JStr(giftId);
    var r := Reconcile(st2, Some(later));
    assert r.claimed[k] in r.claimed;
  }

  /** When the stored state has already been migrated, no later migration undoes a recorded claim. */
  lemma MigratedStaysMigrated(st: Storage, giftId: string, name: string)
    requires Migrate(st) == st
    requires RecordClaim(st, giftId, name).Some?
    ensures Migrate(RecordClaim(st, giftId, name).value) == RecordClaim(st, giftId, name).value
  {
    MigrateSpec(st);
    var st' := RecordClaim(st, giftId, name).value;
    MigrateSpec(st');
    assert LegacyKey in st' <==> LegacyKey in st;
  }

  /**
   * A recorded claim survives the next load: once storage is migrated,
   * loading against a catalog that still shows the gift claimed lists that
   * gift among "claimed by you".
   */
  lemma RecordedClaimIsReloaded(st: Storage, giftId: string, name: string, catalog: seq<Record>)
    requires Migrate(st) == st
    requires RecordClaim(st, giftId, name).Some?
    requires StillClaimed(catalog, JStr(giftId))
    ensures FindById(catalog, JStr(giftId)).value in LoadAllClaimed(RecordClaim(st, giftId, name).value, Some(catalog)).claimed
  {
    var st' := RecordClaim(st, giftId, name).value;
    MigratedStaysMigrated(st, giftId, name);
    RecordClaimSpec(st, giftId, name);
    ReconcileSpec(st', catalog);
    var ids := IdList(st');
    var kept := Filter(ids, StillClaimedIn(catalog));
    var r := Reconcile(st', Some(catalog));
    assert JStr(giftId) in kept;
    var k :| 0 <= k < |kept| && kept[k] == JStr(giftId);
    assert r.claimed[k] in r.claimed;
  }
}
