# mbServer event store

A model of the in-memory event store of the mbServer HTTP server (`index.js`).
The store is the module-level `events` array. Two handlers work on it:

- **saveEvent** (`POST /api/event/saveEvent`) checks that the body has a truthy
  `id`, `date` and `details`. It then looks the id up with `===`. It builds a new
  `eventData` object from the request and two clock readings. If the id is known,
  the object takes over the old createdAt and replaces the event at that index.
  Otherwise it is appended. The handler then writes a copy to cloud storage under
  `events/event_<id>_<Date.now()>.json`. It annotates the stored object with
  `cloudStorageFile` on success or `cloudStorageError` on failure. It answers 200
  "updated" or 201 "created". The annotation reaches the array because the array
  holds the very object the handler keeps changing.
- **list** (`GET /api/events`) sorts the array in place by createdAt, newest
  first. It answers with the sorted array and its length.

The project has three modules:

- `JsValues` (`js_values.dfy`) covers the JavaScript values a JSON body can carry:
  - truthiness;
  - strict equality `===`;
  - the string conversion of a template literal, including the TypeError it
    throws for an object with its own `toString` key (or an array holding one);
  - the decimal rendering of a clock reading.
- `Events` (`events.dfy`) is the behaviour on values. `Save` is one saveEvent call
  on the sequence of stored events. It states:
  - the validation, upsert and annotation behaviour;
  - the 400/200/201 answers;
  - that ids stay unique.

  Lemmas cover runs of saves: ids stay unique, a monotone clock keeps
  `updatedAt >= createdAt`, and new ids are appended in call order. Other lemmas
  cover the mirror file name and the mirror outcome.
- `EventStore` (`store.dfy`) is the imperative model:
  - a class `EventRecord` for the `eventData` object;
  - a class `Store` whose `events` field is a sequence of references to such
    objects;
  - the two handlers as methods.

  `SaveEvent` is proved to leave exactly the stored values and answer that `Save`
  gives. `ListEvents` is proved to keep the same objects, order them newest first
  and report the count. `Store.Valid()` requires that no object is stored twice
  and no two stored objects have `===` ids. The constructor establishes it and
  both handlers preserve it.

Four points where the code's behaviour is easy to misread:

- A new event's createdAt and updatedAt come from two separate `new Date()`
  calls (index.js:114-115). The model takes two clock readings and promises only
  `createdAt <= updatedAt` under a monotone clock. It does not promise that they
  are equal.
- An update does not change the stored object in place. It stores a new object
  at the same index (index.js:121). The mirror annotation of the previous object
  is therefore gone until the new write's outcome is recorded.
- `${id}` at index.js:129 can throw, inside the mirror's try. For such an id
  the event is still stored and answered, but always with `cloudStorageError`,
  whatever the storage would have done.
- The list handler's `Array.prototype.sort` is stable, so events with equal
  createdAt keep their previous array order. The model deliberately states the
  order only up to such ties. The sort also reorders the stored array itself,
  and the model does the same.

## Model

| member | source | states |
|---|---|---|
| JsValues.FalsyValues | index.js:99 | `!x` holds for a body field exactly when it is `undefined` (absent), `null`, `false`, `0` or `""`; arrays and objects always pass |
| JsValues.ToStringThrowsIff | index.js:129 | the template literal `${id}` throws exactly for an object with its own `toString` key, or an array that holds such a value at some depth |
| JsValues.NumericIdRoundTrip | index.js:129 | a numeric id converts to an optionally signed digit string that reads back as the id |
| JsValues.StrictEqualsIsPrimitiveEquality | index.js:108 | `===` between two ids holds exactly when they are the same primitive value; an array or object id never matches |
| JsValues.Decimal | index.js:129 | the rendering of `Date.now()` in the file name is non-empty, all digits, and has no leading zero unless the reading is 0 |
| JsValues.DecimalRoundTrip | index.js:129 | reading the rendered clock value back as a decimal gives the reading |
| JsValues.DecimalInjective | index.js:129 | different clock readings render to different digit strings |
| Events.IndexOfId | index.js:108 | `findIndex` returns -1 exactly when no stored id is `===` to the request id, otherwise the first index whose id matches |
| Events.MirrorFileName | index.js:129 | no name exists exactly when converting the id throws; otherwise the name starts with `events/event_`, ends with `.json` and holds the id's string conversion right after the prefix |
| Events.MirrorFileNamesDistinct | index.js:129 | two mirror writes for the same id at different clock readings use different file names |
| Events.UnconvertibleIdRecordsFailure | index.js:128-152 | a valid request whose id conversion throws is still saved, but is annotated with "Failed to save to cloud storage" and no file name, whatever the storage would have done |
| Events.ToStringKeyScenario | index.js:94-166 | the body `{"id":{"toString":"x"},"date":"d","details":"z"}` is created (201) with the storage failure annotation even though the storage would accept it |
| Events.NumericIdScenario | index.js:129 | id 42 at clock reading 7 is mirrored as `events/event_42_7.json` |
| Events.Annotate | index.js:128-151 | when a file name exists and the write succeeds only `cloudStorageFile` is set, to that name; otherwise only `cloudStorageError` is set, to "Failed to save to cloud storage"; no other field changes |
| Events.Save | index.js:94-166 | a request lacking a truthy id, date or details gets 400 with `required` = ["id","date","details"] and the store is unchanged. A new id appends exactly one event with the request's fields, answering 201 "created". A known id replaces only the first matching index, keeps that event's createdAt and answers 200 "updated". The answer carries the stored event with updatedAt from the clock and exactly one mirror field: the file name when it could be built and the write succeeded, the failure message otherwise. Unique ids stay unique |
| Events.MirrorOutcomeOnlyAnnotates | index.js:127-166 | whether the mirror write succeeds changes neither the status, nor the action, nor the number of events, nor any field other than the two mirror fields |
| Events.SaveKeepsTimestampsOrdered | index.js:110-121 | with a clock that does not run backwards, after a save every event has createdAt <= updatedAt <= the latest reading, and no event's updatedAt decreases |
| Events.SaveAllKeepsIdsUnique | index.js:107-125 | after any sequence of saves there is at most one event per `===` id |
| Events.SaveAllKeepsTimestampsOrdered | index.js:110-121 | after any sequence of saves under a monotone clock, every event has updatedAt >= createdAt |
| Events.SaveAllFreshIds | index.js:118-125 | valid saves of new, pairwise different ids grow the store by one event each, keep the earlier events, and append the ids in call order |
| Events.UpsertScenario | index.js:107-166 | saving e1 and then saving e1 again with new details answers 201 and then 200. The second answer has the new details and the first createdAt, and one event is stored |
| Events.MissingDateScenario | index.js:98-105 | a request without a date answers 400 and stores no event with its id |
| EventStore.EventRecord.constructor | index.js:110-116 | the new `eventData` object holds the request's fields and the two clock readings and has no mirror annotation |
| EventStore.EventRecord.RecordMirrorOutcome | index.js:128-151 | the object gets the file name or the failure message as `Annotate` says, and nothing else changes |
| EventStore.IdsDistinctIffUniqueIds | index.js:108 | for an array without repeated objects, "no two stored objects have `===` ids" is equivalent to "no two indexes hold `===` ids" |
| EventStore.PermutationKeepsIdsDistinct | index.js:181 | rearranging the array keeps its ids distinct |
| EventStore.NewerListedFirst | index.js:181 | in the sorted array, an event created strictly later is listed strictly earlier |
| EventStore.InsertNewestFirst | index.js:181 | inserting one object into a newest-first sequence gives a newest-first sequence holding the old objects and the new one |
| EventStore.SortNewestFirst | index.js:181 | the sort returns the same objects, as many times each, ordered by createdAt non-increasing |
| EventStore.Store.constructor | index.js:25 | the store starts empty and valid |
| EventStore.Store.FindIndex | index.js:108 | the loop returns the first index whose id is `===` to the request id, or -1, as `IndexOfId` says |
| EventStore.Store.SaveEvent | index.js:94-175 | the new stored values and the answer are exactly those `Save` gives for the old stored values; the store stays valid; any newly stored object is fresh |
| EventStore.Store.Upsert | index.js:107-166 | after validation, finding, building, storing, annotating and answering give `Save`'s outcome, and ids stay unique |
| EventStore.Store.Put | index.js:107-125 | the id is looked up, and a fresh object is built and stored at the first match, taking over its createdAt, or is appended; every other index is unchanged |
| EventStore.Store.StoreRecord | index.js:118-125 | the object is stored over index `existing` with the old event's createdAt, or appended; the array keeps no repeated object |
| EventStore.Store.AnnotateStored | index.js:128-152 | annotating the object the handler built changes the stored value at its index and nowhere else, because the array holds that same object |
| EventStore.Store.ListEvents | index.js:178-188 | the array is reordered in place into a permutation of the same objects, newest first. The answer carries the sorted events, a count equal to their number, and the timestamp. A valid store stays valid |

## Left out

- The Express routing, body parsing, static files, health and other routes are not modelled. The handlers take the destructured `{ id, date, details }` directly. A request with no body at all (destructuring `undefined` throws) is not modelled.
- The cloud storage client (`bucket.file(...).save`) is not modelled. Its outcome is the parameter `mirrorSucceeds`. The uploaded JSON text and its metadata, including the extra `new Date()` reading for `uploadedAt` (index.js:137), are not modelled.
- Console logging is left out.
- The 500 paths (index.js:168-174 and 190-196) are left out. They are only reached when a runtime exception escapes, and the modelled operations raise none.
- Clock readings are natural numbers of milliseconds, passed in as parameters. ISO-8601 strings and their parsing in the sort comparator are not modelled.
- The asynchronous `await` on the mirror write is not modelled. Another request can run during that await and observe the stored object before its annotation. The model runs each save to completion.
- Events.Save: numeric ids and other body numbers are modelled only as safe integers (magnitude at most 2^53 - 1). Fractional numbers and larger integers are not values of `JsValue`. Beyond 2^53 distinct JSON literals can parse to the same double, and `toString` prints rounded digits, which the model does not capture.
- JsValues.NumberToString: renders safe integers only. The rounded-digit and exponent forms `toString` uses for larger magnitudes and for fractions are not modelled.
- EventStore.Store.SaveEvent requires `Valid()`. The source states no such precondition. `Valid()` is the invariant the constructor establishes and both handlers preserve, so every reachable store meets it.
- EventStore.Store.ListEvents states the order only up to ties in createdAt. The source's sort is stable and keeps equal-createdAt events in their previous order; the model leaves that order unstated.
