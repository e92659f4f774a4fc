/**
 * The module-level `events` array of the server and the two handlers that
 * change it in place: saveEvent (upsert by id, then annotate the stored
 * object with the mirror outcome) and the list handler (sort by createdAt,
 * newest first, and answer with the array and its length).
 */
module EventStore {
  import opened JsValues
  import opened Events

  /** The `eventData` object saveEvent builds. The array holds references to
      these objects, and saveEvent keeps changing the one it built after
      storing it. */
  class EventRecord {
    var id: JsValue
    var date: JsValue
    var details: JsValue
    var createdAt: nat
    var updatedAt: nat
    var cloudStorageFile: Option<string>
    var cloudStorageError: Option<string>

    /** The object's fields as a value. */
    function View(): EventView
      reads this
    {
      EventView(id, date, details, createdAt, updatedAt, cloudStorageFile, cloudStorageError)
    }

    /** The object literal: the request's fields, two clock readings, and no
        mirror annotation yet. */
    constructor (id: JsValue, date: JsValue, details: JsValue, createdAt: nat, updatedAt: nat)
      ensures View() == EventView(id, date, details, createdAt, updatedAt, None, None)
    {
      this.id := id;
      this.date := date;
      this.details := details;
      this.createdAt := createdAt;
      this.updatedAt := updatedAt;
      this.cloudStorageFile := None;
      this.cloudStorageError := None;
    }

    /** The try/catch around the mirror write: when the file name could be
        built and the write succeeds the object gets the file name, otherwise
        the error message; nothing else changes. */
    method RecordMirrorOutcome(fileName: Option<string>, mirrorSucceeds: bool)
      modifies this
      ensures View() == Annotate(old(View()), fileName, mirrorSucceeds)
    {
      if fileName.Some? && mirrorSucceeds {
        cloudStorageFile := fileName;
      } else {
        cloudStorageError := Some(StorageFailure);
      }
    }
  }

  /** No element occurs twice. */
  predicate Distinct<T(==)>(s: seq<T>) {
    forall i, j :: 0 <= i < j < |s| ==> s[i] != s[j]
  }

  /** The values of the objects `rs` refers to, in order. */
  function ViewsOf(rs: seq<EventRecord>): (vs: seq<EventView>)
    reads rs
    ensures |vs| == |rs|
    ensures forall i :: 0 <= i < |rs| ==> vs[i] == rs[i].View()
  {
    if rs == [] then [] else ViewsOf(rs[..|rs| - 1]) + [rs[|rs| - 1].View()]
  }

  /** Storing an object over an index, or appending it, stores its value
      there. */
  lemma ViewsOfPlaced(rs: seq<EventRecord>, index: int, r: EventRecord)
    requires -1 <= index < |rs|
    ensures ViewsOf(Placed(rs, index, r)) == Placed(ViewsOf(rs), index, r.View())
  {
    var actual := ViewsOf(Placed(rs, index, r));
    var expected := Placed(ViewsOf(rs), index, r.View());
    assert |actual| == |expected|;
    forall k | 0 <= k < |actual| ensures actual[k] == expected[k] {
    }
  }

  /** Ordered by createdAt, newest first. */
  ghost predicate NewestFirst(rs: seq<EventRecord>)
    reads rs
  {
    forall i, j :: 0 <= i < j < |rs| ==> rs[i].createdAt >= rs[j].createdAt
  }

  /** Two different stored objects never have `===` ids. Stated on membership,
      so that it does not depend on the order of the array. */
  ghost predicate IdsDistinct(rs: seq<EventRecord>)
    reads rs
  {
    forall r1, r2 :: r1 in rs && r2 in rs && r1 != r2 ==> !StrictEquals(r1.id, r2.id)
  }

  /** For an array without repeated references, the object-level and the
      index-level statements of id uniqueness agree. */
  lemma IdsDistinctIffUniqueIds(rs: seq<EventRecord>)
    requires Distinct(rs)
    ensures IdsDistinct(rs) <==> UniqueIds(ViewsOf(rs))
  {
    var vs := ViewsOf(rs);
    if IdsDistinct(rs) {
      forall i, j | 0 <= i < j < |vs| ensures !StrictEquals(vs[i].id, vs[j].id) {
        assert rs[i] in rs && rs[j] in rs && rs[i] != rs[j];
      }
    }
    if UniqueIds(vs) {
      forall r1, r2 | r1 in rs && r2 in rs && r1 != r2 ensures !StrictEquals(r1.id, r2.id) {
        var i :| 0 <= i < |rs| && rs[i] == r1;
        var j :| 0 <= j < |rs| && rs[j] == r2;
        StrictEqualsIsPrimitiveEquality(r1.id, r2.id);
        StrictEqualsIsPrimitiveEquality(r2.id, r1.id);
        if i < j {
          assert !StrictEquals(vs[i].id, vs[j].id);
        } else {
          assert !StrictEquals(vs[j].id, vs[i].id);
        }
      }
    }
  }

  /** A sequence has no repeated element exactly when no element occurs
      more than once in its multiset. */
  lemma {:induction false} DistinctIffSingleOccurrences<T>(s: seq<T>)
    ensures Distinct(s) <==> forall x :: multiset(s)[x] <= 1
  {
    if s != [] {
      var p, x := s[..|s| - 1], s[|s| - 1];
      assert s == p + [x];
      assert multiset(s) == multiset(p) + multiset{x};
      DistinctIffSingleOccurrences(p);
      if Distinct(s) {
        assert Distinct(p);
        assert multiset(p)[x] == 0;
      }
      if forall y :: multiset(s)[y] <= 1 {
        assert forall y :: multiset(p)[y] <= multiset(s)[y];
        assert multiset(p)[x] == 0;
        assert x !in p;
        forall i, j | 0 <= i < j < |s| ensures s[i] != s[j] {
          if j == |s| - 1 {
            assert s[i] == p[i];
          } else {
            assert s[i] == p[i] && s[j] == p[j];
          }
        }
      }
    }
  }

  /** Overwriting one element with, or appending, an element that does not
      occur yet keeps a sequence free of repeated elements. */
  lemma DistinctAfterPlacing<T>(s: seq<T>, index: int, x: T)
    requires Distinct(s) && x !in s
    requires -1 <= index < |s|
    ensures Distinct(Placed(s, index, x))
  {
    var t := Placed(s, index, x);
    forall i, j | 0 <= i < j < |t| ensures t[i] != t[j] {
      if index == -1 {
        assert t[i] == s[i];
      }
    }
  }

  /** Where `Placed` puts its element. */
  function PlacedAt<T>(s: seq<T>, index: int): nat
    requires -1 <= index < |s|
  {
    if index != -1 then index else |s|
  }

  /** Replacing the element just placed is placing the replacement. */
  lemma PlacedThenReplaced<T>(s: seq<T>, index: int, x: T, y: T)
    requires -1 <= index < |s|
    ensures PlacedAt(s, index) < |Placed(s, index, x)|
    ensures Placed(s, index, x)[PlacedAt(s, index) := y] == Placed(s, index, y)
  {
    if index == -1 {
      assert (s + [x])[|s| := y] == s + [y];
    }
  }

  /** Rearranging a sequence keeps it free of repeated elements. */
  lemma PermutationKeepsDistinct<T>(a: seq<T>, b: seq<T>)
    requires multiset(a) == multiset(b)
    requires Distinct(a)
    ensures Distinct(b)
  {
    DistinctIffSingleOccurrences(a);
    DistinctIffSingleOccurrences(b);
  }

  /** Rearranging the array keeps its ids distinct. */
  lemma PermutationKeepsIdsDistinct(a: seq<EventRecord>, b: seq<EventRecord>)
    requires multiset(a) == multiset(b)
    requires IdsDistinct(a)
    ensures IdsDistinct(b)
  {
    forall r ensures r in b ==> r in a {
      assert r in b <==> r in multiset(b);
      assert r in a <==> r in multiset(a);
    }
  }

  /** In a newest-first arrangement, an event created strictly later is
      listed strictly earlier. */
  lemma NewerListedFirst(rs: seq<EventRecord>, i: nat, j: nat)
    requires NewestFirst(rs)
    requires i < |rs| && j < |rs|
    requires rs[i].createdAt > rs[j].createdAt
    ensures i < j
  {
  }

  /** Placing `r` after the events created no earlier than it and before
      those created strictly earlier keeps a sequence newest first. */
  lemma InsertionKeepsNewestFirst(sorted: seq<EventRecord>, r: EventRecord, j: nat)
    requires NewestFirst(sorted)
    requires j <= |sorted|
    requires forall k :: 0 <= k < j ==> sorted[k].createdAt >= r.createdAt
    requires j < |sorted| ==> sorted[j].createdAt < r.createdAt
    ensures NewestFirst(sorted[..j] + [r] + sorted[j..])
  {
    var result := sorted[..j] + [r] + sorted[j..];
    forall a, b | 0 <= a < b < |result| ensures result[a].createdAt >= result[b].createdAt {
      if b < j {
        assert result[a] == sorted[a] && result[b] == sorted[b];
      } else if b == j {
        assert result[a] == sorted[a] && result[b] == r;
      } else if a == j {
        assert result[b] == sorted[b - 1];
      } else if a < j {
        assert result[a] == sorted[a] && result[b] == sorted[b - 1];
      } else {
        assert result[a] == sorted[a - 1] && result[b] == sorted[b - 1];
      }
    }
  }

  /** Inserts `r` into a newest-first sequence, before the first element
      created strictly earlier than it. */
  method InsertNewestFirst(sorted: seq<EventRecord>, r: EventRecord) returns (result: seq<EventRecord>)
    requires NewestFirst(sorted)
    ensures multiset(result) == multiset(sorted) + multiset{r}
    ensures NewestFirst(result)
  {
    var j := 0;
    while j < |sorted| && sorted[j].createdAt >= r.createdAt
      invariant 0 <= j <= |sorted|
      invariant forall k :: 0 <= k < j ==> sorted[k].createdAt >= r.createdAt
    {
      j := j + 1;
    }
    if j < |sorted| {
      assert sorted[j].createdAt < r.createdAt;
    }
    result := sorted[..j] + [r] + sorted[j..];
    assert sorted == sorted[..j] + sorted[j..];
    InsertionKeepsNewestFirst(sorted, r, j);
  }

  /** The rearrangement `events.sort` performs with the comparator
      `new Date(b.createdAt) - new Date(a.createdAt)`: the same objects,
      newest first. The relative order of equal createdAt is not promised. */
  method SortNewestFirst(rs: seq<EventRecord>) returns (sorted: seq<EventRecord>)
    ensures multiset(sorted) == multiset(rs)
    ensures NewestFirst(sorted)
  {
    sorted := [];
    var i := 0;
    while i < |rs|
      invariant 0 <= i <= |rs|
      invariant multiset(sorted) == multiset(rs[..i])
      invariant NewestFirst(sorted)
    {
      sorted := InsertNewestFirst(sorted, rs[i]);
      assert rs[..i + 1] == rs[..i] + [rs[i]];
      i := i + 1;
    }
    assert rs[..|rs|] == rs;
  }

  /** The server's `events` array and the handlers that change it. */
  class Store {
    var events: seq<EventRecord>

    /** No object is stored twice and no two stored objects share an id. */
    ghost predicate Valid()
      reads this, events
    {
      Distinct(events) && IdsDistinct(events)
    }

    /** The stored events as values, in array order. */
    function Views(): seq<EventView>
      reads this, events
    {
      ViewsOf(events)
    }

    /** `let events = []`. */
    constructor ()
      ensures Valid() && events == []
    {
      events := [];
    }

    /** `events.findIndex(event => event.id === id)`. */
    method FindIndex(id: JsValue) returns (index: int)
      ensures index == IndexOfId(Views(), id)
    {
      index := 0;
      while index < |events|
        invariant 0 <= index <= |events|
        invariant forall j :: 0 <= j < index ==> !StrictEquals(events[j].id, id)
      {
        if StrictEquals(events[index].id, id) {
          assert FirstMatch(Views(), id, index);
          return;
        }
        index := index + 1;
      }
      assert !HasId(Views(), id);
      index := -1;
    }

    /** The saveEvent handler. The stored events and the answer are exactly
        those of `Save`, whose contract states the validation, upsert and
        annotation behaviour. */
    method SaveEvent(req: SaveRequest, clock: ClockReads, mirrorSucceeds: bool) returns (response: SaveResponse)
      requires Valid()
      modifies this
      ensures Valid()
      ensures SaveOutcome(Views(), response) == Save(old(Views()), req, clock, mirrorSucceeds)
      ensures forall r :: r in events && r !in old(events) ==> fresh(r)
    {
      if !Truthy(req.id) || !Truthy(req.date) || !Truthy(req.details) {
        response := MissingFields(400, "Missing required fields",
                                  "Please provide id, date, and details", RequiredFields);
        return;
      }
      IdsDistinctIffUniqueIds(events);
      response := Upsert(req, clock, mirrorSucceeds);
      IdsDistinctIffUniqueIds(events);
    }

    /** The part of saveEvent after validation: find the id, build and store
        the event object, annotate it with the mirror outcome, answer. The
        object built here is the one stored and the one annotated. */
    method Upsert(req: SaveRequest, clock: ClockReads, mirrorSucceeds: bool) returns (response: SaveResponse)
      requires Distinct(events) && UniqueIds(Views()) && HasRequiredFields(req)
      modifies this
      ensures Distinct(events) && UniqueIds(Views())
      ensures SaveOutcome(Views(), response) == Save(old(Views()), req, clock, mirrorSucceeds)
      ensures forall r :: r in events && r !in old(events) ==> fresh(r)
    {
      ghost var before := Views();
      var existing, record := Put(req, clock);
      ghost var built := record.View();

      var fileName := MirrorFileName(req.id, clock.nameRead);
      AnnotateStored(record, PlacedAt(old(events), existing), fileName, mirrorSucceeds);
      ghost var stored := record.View();
      PlacedThenReplaced(before, existing, built, stored);

      if existing != -1 {
        response := Saved(200, "Event updated successfully", record.View(), "updated");
      } else {
        response := Saved(201, "Event created successfully", record.View(), "created");
      }
      ghost var outcome := Save(before, req, clock, mirrorSucceeds);
      assert outcome == SaveOutcome(Placed(before, existing, stored), response);
    }

    /** Finds the id, builds the event object and stores it. */
    method Put(req: SaveRequest, clock: ClockReads) returns (existing: int, record: EventRecord)
      requires Distinct(events)
      modifies this
      ensures fresh(record)
      ensures existing == IndexOfId(old(Views()), req.id)
      ensures events == Placed(old(events), existing, record)
      ensures Distinct(events)
      ensures record.View() == NewRecord(old(Views()), req, clock, existing)
      ensures Views() == Placed(old(Views()), existing, record.View())
    {
      existing := FindIndex(req.id);
      record := new EventRecord(req.id, req.date, req.details, clock.createdRead, clock.updatedRead);
      StoreRecord(existing, record);
    }

    /** Stores `record` over the event at `existing`, taking over that
        event's createdAt, or appends it when `existing` is -1. */
    method StoreRecord(existing: int, record: EventRecord)
      requires Distinct(events) && record !in events
      requires -1 <= existing < |events|
      modifies this, record
      ensures events == Placed(old(events), existing, record)
      ensures Distinct(events)
      ensures record.View() == old(record.View()).(createdAt :=
        if existing != -1 then old(Views())[existing].createdAt else old(record.createdAt))
      ensures Views() == Placed(old(Views()), existing, record.View())
    {
      ghost var before, stored := Views(), events;
      if existing != -1 {
        record.createdAt := events[existing].createdAt;
        events := events[existing := record];
      } else {
        events := events + [record];
      }
      assert ViewsOf(stored) == before;
      ViewsOfPlaced(stored, existing, record);
      DistinctAfterPlacing(stored, existing, record);
    }

    /** The mirror outcome is written on `record`, the object the caller
        built; since that object is the one stored at `position`, the array
        sees the annotation there and nowhere else. */
    method AnnotateStored(record: EventRecord, ghost position: nat, fileName: Option<string>, mirrorSucceeds: bool)
      requires Distinct(events) && position < |events| && events[position] == record
      modifies record
      ensures record.View() == Annotate(old(record.View()), fileName, mirrorSucceeds)
      ensures events == old(events)
      ensures Views() == old(Views())[position := record.View()]
    {
      record.RecordMirrorOutcome(fileName, mirrorSucceeds);
      forall k | 0 <= k < |events| ensures Views()[k] == old(Views())[position := record.View()][k] {
        if k != position {
          assert events[k].View() == old(events[k].View());
        }
      }
    }

    /** The list handler: sorts the array in place, newest first, and answers
        with the sorted array and its length. */
    method ListEvents(now: nat) returns (response: ListResponse)
      modifies this
      ensures old(Valid()) ==> Valid()
      ensures multiset(events) == multiset(old(events))
      ensures NewestFirst(events)
      ensures response == ListResponse(200, "Events retrieved successfully", Views(), |events|, now)
    {
      ghost var unsorted := events;
      events := SortNewestFirst(events);
      if Distinct(unsorted) {
        PermutationKeepsDistinct(unsorted, events);
      }
      if IdsDistinct(unsorted) {
        PermutationKeepsIdsDistinct(unsorted, events);
      }
      response := ListResponse(200, "Events retrieved successfully", Views(), |events|, now);
    }
  }
}
