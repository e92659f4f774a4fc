/**
 * The event store of the saveEvent and list handlers, on values: what a
 * stored event holds, what one save does to the sequence of stored events and
 * answers, and what a run of saves keeps true. The imperative model in
 * module EventStore is proved to behave exactly as `Save` says.
 */
module Events {
  import opened JsValues

  /** The fields of one stored event object at a given moment. The two mirror
      fields are absent until the mirror write has finished; afterwards exactly
      one of them is present. Timestamps are milliseconds of the server clock. */
  datatype EventView = EventView(
    id: JsValue,
    date: JsValue,
    details: JsValue,
    createdAt: nat,
    updatedAt: nat,
    cloudStorageFile: Option<string>,
    cloudStorageError: Option<string>)

  /** The `{ id, date, details }` destructured from the request body. */
  datatype SaveRequest = SaveRequest(id: JsValue, date: JsValue, details: JsValue)

  /** The three clock readings a save takes: `new Date()` for createdAt, again
      for updatedAt, and `Date.now()` for the mirror file name. */
  datatype ClockReads = ClockReads(createdRead: nat, updatedRead: nat, nameRead: nat)

  /** Status code and JSON body of the saveEvent handler. */
  datatype SaveResponse =
    | MissingFields(status: nat, error: string, message: string, required: seq<string>)
    | Saved(status: nat, message: string, event: EventView, action: string)

  /** Status code and JSON body of the list handler. */
  datatype ListResponse = ListResponse(
    status: nat, message: string, data: seq<EventView>, count: nat, timestamp: nat)

  /** The stored events after a save, and the answer to it. */
  datatype SaveOutcome = SaveOutcome(store: seq<EventView>, response: SaveResponse)

  const RequiredFields: seq<string> := ["id", "date", "details"]
  const StorageFailure: string := "Failed to save to cloud storage"
  const MirrorPrefix: string := "events/event_"
  const MirrorSuffix: string := ".json"

  predicate HasRequiredFields(req: SaveRequest) {
    Truthy(req.id) && Truthy(req.date) && Truthy(req.details)
  }

  /** Some stored event has an id `===` to `id`. */
  predicate HasId(store: seq<EventView>, id: JsValue) {
    exists k :: 0 <= k < |store| && StrictEquals(store[k].id, id)
  }

  /** `k` is the first index whose id is `===` to `id`. */
  predicate FirstMatch(store: seq<EventView>, id: JsValue, k: int) {
    && 0 <= k < |store|
    && StrictEquals(store[k].id, id)
    && forall j :: 0 <= j < k ==> !StrictEquals(store[j].id, id)
  }

  /** At most one stored event per id. */
  predicate UniqueIds(store: seq<EventView>) {
    forall i, j :: 0 <= i < j < |store| ==> !StrictEquals(store[i].id, store[j].id)
  }

  /** `events.findIndex(event => event.id === id)`: the first index whose id
      matches, or -1 when none does. */
  function IndexOfId(store: seq<EventView>, id: JsValue): (r: int)
    ensures -1 <= r < |store|
    ensures r == -1 <==> !HasId(store, id)
    ensures r != -1 ==> FirstMatch(store, id, r)
  {
    if store == [] then -1
    else if StrictEquals(store[0].id, id) then 0
    else
      var rest := IndexOfId(store[1..], id);
      if rest == -1 then -1 else rest + 1
  }

  /** The name under which an event is mirrored: a fixed folder and prefix,
      the id as a template literal converts it, the clock reading, ".json".
      `None` when converting the id throws, which the mirror's catch handles. */
  function MirrorFileName(id: JsValue, now: nat): (name: Option<string>)
    ensures name.None? <==> ToString(id).None?
    ensures name.Some? ==>
      var text := ToString(id).value;
      && |name.value| == |MirrorPrefix| + |text| + 1 + |Decimal(now)| + |MirrorSuffix|
      && name.value[..|MirrorPrefix|] == MirrorPrefix
      && name.value[|name.value| - |MirrorSuffix|..] == MirrorSuffix
      && name.value[|MirrorPrefix|..|MirrorPrefix| + |text|] == text
  {
    match ToString(id)
    case None => None
    case Some(text) => Some(MirrorPrefix + text + "_" + Decimal(now) + MirrorSuffix)
  }

  /** Two mirror writes for the same id at different clock readings never
      target the same file. */
  lemma MirrorFileNamesDistinct(id: JsValue, m: nat, n: nat)
    requires MirrorFileName(id, m).Some?
    requires MirrorFileName(id, m) == MirrorFileName(id, n)
    ensures m == n
  {
    var name := MirrorFileName(id, m).value;
    var text := ToString(id).value;
    var start := |MirrorPrefix| + |text| + 1;
    assert |Decimal(m)| == |Decimal(n)|;
    assert name[start..|name| - |MirrorSuffix|] == Decimal(m);
    assert MirrorFileName(id, n).value[start..|name| - |MirrorSuffix|] == Decimal(n);
    DecimalInjective(m, n);
  }

  /** The event with its mirror annotations cleared. */
  function Unannotated(v: EventView): EventView {
    v.(cloudStorageFile := None, cloudStorageError := None)
  }

  /** The annotation the mirror outcome leaves on the stored event object. */
  /** The mirror write succeeds only when a file name could be built and the
      storage write went through; otherwise the catch records the failure. */
  function Annotate(record: EventView, fileName: Option<string>, mirrorSucceeds: bool): (r: EventView)
    ensures Unannotated(r) == Unannotated(record)
    ensures fileName.Some? && mirrorSucceeds ==>
      r.cloudStorageFile == fileName && r.cloudStorageError == record.cloudStorageError
    ensures fileName.None? || !mirrorSucceeds ==>
      r.cloudStorageError == Some(StorageFailure) && r.cloudStorageFile == record.cloudStorageFile
  {
    if fileName.Some? && mirrorSucceeds then record.(cloudStorageFile := fileName)
    else record.(cloudStorageError := Some(StorageFailure))
  }

  /** The `eventData` literal built for a valid request: the request's
      fields and two clock readings, then, when `existing` is the index of a
      match, that event's createdAt instead of the first reading. */
  function NewRecord(store: seq<EventView>, req: SaveRequest, clock: ClockReads, existing: int): EventView
    requires -1 <= existing < |store|
  {
    var built := EventView(req.id, req.date, req.details, clock.createdRead, clock.updatedRead, None, None);
    if existing != -1 then built.(createdAt := store[existing].createdAt) else built
  }

  /** `s` with `x` written over index `index`, or pushed at the end when
      `index` is -1. */
  function Placed<T>(s: seq<T>, index: int, x: T): seq<T>
    requires -1 <= index < |s|
  {
    if index != -1 then s[index := x] else s + [x]
  }

  /** The answer to a valid save: 200 "updated" when an event was replaced,
      201 "created" when one was appended. */
  function SavedResponse(existing: int, stored: EventView): SaveResponse {
    if existing != -1 then Saved(200, "Event updated successfully", stored, "updated")
    else Saved(201, "Event created successfully", stored, "created")
  }

  /** One call of the saveEvent handler: validate, upsert by id, annotate
      the stored event with the mirror outcome, answer. */
  function Save(store: seq<EventView>, req: SaveRequest, clock: ClockReads, mirrorSucceeds: bool): (r: SaveOutcome)
    // A request lacking a field is refused and the store is untouched.
    ensures !HasRequiredFields(req) ==>
      && r.store == store
      && r.response.MissingFields?
      && r.response.status == 400
      && r.response.required == ["id", "date", "details"]
    // A valid request stores and answers an event carrying its fields, a fresh
    // updatedAt, and the mirror outcome.
    ensures HasRequiredFields(req) ==>
      && r.response.Saved?
      && r.response.event.id == req.id
      && r.response.event.date == req.date
      && r.response.event.details == req.details
      && r.response.event.updatedAt == clock.updatedRead
      && var name := MirrorFileName(req.id, clock.nameRead);
         && r.response.event.cloudStorageFile == (if mirrorSucceeds && name.Some? then name else None)
         && r.response.event.cloudStorageError ==
              (if mirrorSucceeds && name.Some? then None else Some(StorageFailure))
    // A new id appends exactly one event and leaves the others alone.
    ensures HasRequiredFields(req) && !HasId(store, req.id) ==>
      && |r.store| == |store| + 1
      && r.store[..|store|] == store
      && r.store[|store|] == r.response.event
      && r.response.event.createdAt == clock.createdRead
      && r.response.status == 201
      && r.response.action == "created"
    // A known id replaces the first event with that id, keeping its createdAt,
    // and leaves every other index alone.
    ensures forall k {:trigger FirstMatch(store, req.id, k)} ::
      HasRequiredFields(req) && FirstMatch(store, req.id, k) ==>
      && |r.store| == |store|
      && (forall j :: 0 <= j < |store| && j != k ==> r.store[j] == store[j])
      && r.store[k] == r.response.event
      && r.response.event.createdAt == store[k].createdAt
      && r.response.status == 200
      && r.response.action == "updated"
    ensures UniqueIds(store) ==> UniqueIds(r.store)
  {
    if !HasRequiredFields(req) then
      SaveOutcome(store, MissingFields(400, "Missing required fields",
                                       "Please provide id, date, and details", RequiredFields))
    else
      var existing := IndexOfId(store, req.id);
      var stored := Annotate(NewRecord(store, req, clock, existing), MirrorFileName(req.id, clock.nameRead),
                             mirrorSucceeds);
      SaveOutcome(Placed(store, existing, stored), SavedResponse(existing, stored))
  }

  /** The outcome of the mirror write changes nothing but the annotation:
      not the status, not the action, not any other field of any event. */
  lemma MirrorOutcomeOnlyAnnotates(store: seq<EventView>, req: SaveRequest, clock: ClockReads)
    ensures var ok := Save(store, req, clock, true);
            var failed := Save(store, req, clock, false);
            && ok.response.status == failed.response.status
            && ok.response.Saved? == failed.response.Saved?
            && (ok.response.Saved? ==>
                  && ok.response.action == failed.response.action
                  && Unannotated(ok.response.event) == Unannotated(failed.response.event))
            && |ok.store| == |failed.store|
            && forall k :: 0 <= k < |ok.store| ==> Unannotated(ok.store[k]) == Unannotated(failed.store[k])
  {
  }

  /** An id whose string conversion throws leaves the event marked as not
      mirrored, whatever the storage would have done: the throw happens inside
      the mirror's try, before the write. */
  lemma UnconvertibleIdRecordsFailure(store: seq<EventView>, req: SaveRequest, clock: ClockReads,
                                      mirrorSucceeds: bool)
    requires HasRequiredFields(req) && ConversionThrows(req.id)
    ensures var r := Save(store, req, clock, mirrorSucceeds);
            && r.response.Saved?
            && r.response.event.cloudStorageFile == None
            && r.response.event.cloudStorageError == Some(StorageFailure)
  {
    ToStringThrowsIff(req.id);
  }

  /** An object id carrying its own `toString` key is stored, but its mirror
      write fails even when the storage would accept it. */
  lemma ToStringKeyScenario(clock: ClockReads)
    ensures
      var id := Obj(map["toString" := Str("x")]);
      var r := Save([], SaveRequest(id, Str("d"), Str("z")), clock, true);
      && r.response.status == 201
      && r.response.event.cloudStorageError == Some(StorageFailure)
      && |r.store| == 1
  {
    var id := Obj(map["toString" := Str("x")]);
    assert ConversionThrows(id);
    UnconvertibleIdRecordsFailure([], SaveRequest(id, Str("d"), Str("z")), clock, true);
  }

  /** A numeric id is mirrored under its decimal digits. */
  lemma NumericIdScenario(createdRead: nat, updatedRead: nat)
    ensures
      var r := Save([], SaveRequest(Num(42), Str("d"), Str("z")), ClockReads(createdRead, updatedRead, 7), true);
      r.response.event.cloudStorageFile == Some("events/event_42_7.json")
  {
    assert Decimal(4) == "4";
    assert Decimal(42) == "42";
    assert ToString(Num(42)) == Some("42");
    assert Decimal(7) == "7";
    assert MirrorPrefix + "42" + "_" + "7" + MirrorSuffix == "events/event_42_7.json";
    assert MirrorFileName(Num(42), 7) == Some("events/event_42_7.json");
  }

  /** Every event was created no later than its last update, and no later
      than clock reading `t`. */
  predicate TimestampsBoundedBy(store: seq<EventView>, t: nat) {
    forall k :: 0 <= k < |store| ==> store[k].createdAt <= store[k].updatedAt <= t
  }

  /** With a clock that does not run backwards, a save keeps every event's
      updatedAt at or after its createdAt, and an update never moves
      updatedAt back. */
  lemma SaveKeepsTimestampsOrdered(store: seq<EventView>, req: SaveRequest, clock: ClockReads,
                                   mirrorSucceeds: bool, t: nat)
    requires TimestampsBoundedBy(store, t)
    requires t <= clock.createdRead <= clock.updatedRead
    ensures var r := Save(store, req, clock, mirrorSucceeds);
            && TimestampsBoundedBy(r.store, clock.updatedRead)
            && forall k :: 0 <= k < |store| ==> store[k].updatedAt <= r.store[k].updatedAt
  {
    var r := Save(store, req, clock, mirrorSucceeds);
    if HasRequiredFields(req) && HasId(store, req.id) {
      var i := IndexOfId(store, req.id);
      assert FirstMatch(store, req.id, i);
    }
  }

  /** One save request with the clock readings and mirror outcome it met. */
  datatype SaveCall = SaveCall(req: SaveRequest, clock: ClockReads, mirrorSucceeds: bool)

  /** The store after a sequence of saves, one after the other. */
  function SaveAll(store: seq<EventView>, calls: seq<SaveCall>): seq<EventView>
    decreases |calls|
  {
    if calls == [] then store
    else SaveAll(Save(store, calls[0].req, calls[0].clock, calls[0].mirrorSucceeds).store, calls[1..])
  }

  /** The clock never runs backwards from reading `t` on, across the calls. */
  predicate MonotoneFrom(t: nat, calls: seq<SaveCall>)
    decreases |calls|
  {
    calls != [] ==>
      && t <= calls[0].clock.createdRead <= calls[0].clock.updatedRead
      && MonotoneFrom(calls[0].clock.updatedRead, calls[1..])
  }

  /** However many saves run, there is never more than one event per id. */
  lemma {:induction false} SaveAllKeepsIdsUnique(store: seq<EventView>, calls: seq<SaveCall>)
    requires UniqueIds(store)
    ensures UniqueIds(SaveAll(store, calls))
    decreases |calls|
  {
    if calls != [] {
      SaveAllKeepsIdsUnique(Save(store, calls[0].req, calls[0].clock, calls[0].mirrorSucceeds).store, calls[1..]);
    }
  }

  /** With a monotone clock, every stored event has updatedAt >= createdAt
      after any run of saves. */
  lemma {:induction false} SaveAllKeepsTimestampsOrdered(store: seq<EventView>, t: nat, calls: seq<SaveCall>)
    requires TimestampsBoundedBy(store, t)
    requires MonotoneFrom(t, calls)
    ensures forall k :: 0 <= k < |SaveAll(store, calls)| ==>
              SaveAll(store, calls)[k].createdAt <= SaveAll(store, calls)[k].updatedAt
    decreases |calls|
  {
    if calls != [] {
      var c := calls[0];
      SaveKeepsTimestampsOrdered(store, c.req, c.clock, c.mirrorSucceeds, t);
      SaveAllKeepsTimestampsOrdered(Save(store, c.req, c.clock, c.mirrorSucceeds).store, c.clock.updatedRead, calls[1..]);
    }
  }

  /** Valid saves with ids that are new and pairwise different append one
      event each, in call order: N such saves on an empty store leave exactly
      N events, one per id. */
  lemma {:induction false} SaveAllFreshIds(store: seq<EventView>, calls: seq<SaveCall>)
    requires forall k :: 0 <= k < |calls| ==> HasRequiredFields(calls[k].req) && !HasId(store, calls[k].req.id)
    requires forall i, j :: 0 <= i < j < |calls| ==> !StrictEquals(calls[i].req.id, calls[j].req.id)
    ensures |SaveAll(store, calls)| == |store| + |calls|
    ensures SaveAll(store, calls)[..|store|] == store
    ensures forall k :: 0 <= k < |calls| ==> SaveAll(store, calls)[|store| + k].id == calls[k].req.id
    decreases |calls|
  {
    if calls != [] {
      var c := calls[0];
      var next := Save(store, c.req, c.clock, c.mirrorSucceeds).store;
      assert |next| == |store| + 1 && next[..|store|] == store && next[|store|].id == c.req.id;
      forall k | 0 <= k < |calls[1..]|
        ensures !HasId(next, calls[1..][k].req.id)
      {
        var id := calls[k + 1].req.id;
        assert !StrictEquals(c.req.id, id);
        forall j | 0 <= j < |next| ensures !StrictEquals(next[j].id, id) {
          if j < |store| {
            assert next[j] == store[j];
          }
        }
      }
      SaveAllFreshIds(next, calls[1..]);
      var result := SaveAll(store, calls);
      assert result == SaveAll(next, calls[1..]);
      assert result[..|store|] == result[..|next|][..|store|];
      forall k | 0 <= k < |calls| ensures result[|store| + k].id == calls[k].req.id {
        if k == 0 {
          assert result[|store|] == result[..|next|][|store|];
        } else {
          assert result[|store| + k] == result[|next| + (k - 1)];
        }
      }
    }
  }

  /** Saving e1, then saving e1 again with new details, creates once and
      updates once: the second answer carries the new details and the first
      createdAt, and the store holds one event. */
  lemma UpsertScenario(first: ClockReads, second: ClockReads, firstMirror: bool, secondMirror: bool)
    ensures
      var created := Save([], SaveRequest(Str("e1"), Str("2024-01-01"), Obj(map["note" := Str("x")])),
                          first, firstMirror);
      var updated := Save(created.store, SaveRequest(Str("e1"), Str("2024-01-01"), Obj(map["note" := Str("y")])),
                          second, secondMirror);
      && created.response.status == 201
      && updated.response.status == 200
      && updated.response.event.details == Obj(map["note" := Str("y")])
      && updated.response.event.createdAt == created.response.event.createdAt
      && |updated.store| == 1
  {
    var created := Save([], SaveRequest(Str("e1"), Str("2024-01-01"), Obj(map["note" := Str("x")])),
                        first, firstMirror);
    assert FirstMatch(created.store, Str("e1"), 0);
  }

  /** A request without a date is refused and does not create e1. */
  lemma MissingDateScenario(store: seq<EventView>, clock: ClockReads, mirrorSucceeds: bool)
    requires !HasId(store, Str("e1"))
    ensures
      var r := Save(store, SaveRequest(Str("e1"), Undefined, Obj(map[])), clock, mirrorSucceeds);
      r.response.status == 400 && !HasId(r.store, Str("e1"))
  {
  }
}
