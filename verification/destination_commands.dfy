/**
 * The destination command handlers: create, partial update, delete and
 * toggle-visited. Each works on the destination table only and stamps the
 * clock value `now` where the handler reads `DateTime.UtcNow`.
 */
module DestinationCommands {
  import opened Wrappers
  import opened Entities
  import opened Store
  import opened Commands
  import opened Mapping
  import DestinationQueries

  /** `CreateDestinationHandler`: maps the request and stores it under a fresh id. */
  function CreateDestination(db: Database, dto: CreateDestinationDto, now: Instant): (o: Outcome<Stored<Destination>>)
    requires db.Valid()
    ensures o.db.Valid()
    ensures o.db.visitedPlaces == db.visitedPlaces
    ensures o.reply.id !in db.destinations.rows
    ensures o.db.destinations.rows.Keys == db.destinations.rows.Keys + {o.reply.id}
    ensures |o.db.destinations.rows| == |db.destinations.rows| + 1
    ensures o.db.destinations.rows[o.reply.id] == o.reply.record == MapCreateDestination(dto, now)
    ensures forall k :: k in db.destinations.rows ==> o.db.destinations.rows[k] == db.destinations.rows[k]
  {
    var d := MapCreateDestination(dto, now);
    var (t, id) := Insert(db.destinations, d);
    Outcome(db.(destinations := t), Stored(id, d))
  }

  /**
   * `UpdateDestinationHandler`: null for a missing id, with nothing changed;
   * otherwise the non-null members of the request are applied, `UpdatedAt`
   * is stamped, and no other record changes.
   */
  function UpdateDestination(db: Database, id: int, dto: UpdateDestinationDto, now: Instant): (o: Outcome<Option<Destination>>)
    ensures o.reply.None? <==> id !in db.destinations.rows
    ensures o.reply.None? ==> o.db == db
    ensures o.db.visitedPlaces == db.visitedPlaces
    ensures o.db.destinations.rows.Keys == db.destinations.rows.Keys
    ensures o.reply.Some? ==>
      && o.db.destinations.rows[id] == o.reply.value
      && o.reply.value == ApplyDestinationUpdate(db.destinations.rows[id], dto).(updatedAt := Some(now))
    ensures forall k :: k in db.destinations.rows && k != id ==> o.db.destinations.rows[k] == db.destinations.rows[k]
    ensures db.Valid() ==> o.db.Valid()
  {
    match DestinationQueries.GetDestinationById(db, id)
    case None => Outcome(db, None)
    case Some(existing) =>
      var updated := ApplyDestinationUpdate(existing, dto).(updatedAt := Some(now));
      Outcome(db.(destinations := Replace(db.destinations, id, updated)), Some(updated))
  }

  /** `DeleteDestinationHandler`: false exactly when the id is absent; otherwise only that id goes. */
  function DeleteDestination(db: Database, id: int): (o: Outcome<bool>)
    ensures o.reply <==> id in db.destinations.rows
    ensures !o.reply ==> o.db == db
    ensures o.db.visitedPlaces == db.visitedPlaces
    ensures o.db.destinations.rows.Keys == db.destinations.rows.Keys - {id}
    ensures forall k :: k in o.db.destinations.rows ==> o.db.destinations.rows[k] == db.destinations.rows[k]
    ensures db.Valid() ==> o.db.Valid()
  {
    match DestinationQueries.GetDestinationById(db, id)
    case None => Outcome(db, false)
    case Some(_) => Outcome(db.(destinations := Remove(db.destinations, id)), true)
  }

  /** `b` is `a` with at most the visited flag and the update stamp changed. */
  predicate SameApartFromVisit(a: Destination, b: Destination) {
    && a.name == b.name && a.country == b.country && a.priority == b.priority
    && a.dateVisited == b.dateVisited && a.description == b.description && a.rating == b.rating
    && a.photos == b.photos && a.createdAt == b.createdAt
  }

  /**
   * `ToggleDestinationVisitedHandler`: null for a missing id, with nothing
   * changed; otherwise `IsVisited` is negated and `UpdatedAt` stamped, no
   * other member or record changes, and the visited-place store is not read
   * or written.
   */
  function ToggleDestinationVisited(db: Database, id: int, now: Instant): (o: Outcome<Option<Destination>>)
    ensures o.reply.None? <==> id !in db.destinations.rows
    ensures o.reply.None? ==> o.db == db
    ensures o.db.visitedPlaces == db.visitedPlaces
    ensures o.db.destinations.rows.Keys == db.destinations.rows.Keys
    ensures o.reply.Some? ==>
      var before := db.destinations.rows[id];
      && o.db.destinations.rows[id] == o.reply.value
      && o.reply.value.isVisited == !before.isVisited
      && o.reply.value.updatedAt == Some(now)
      && SameApartFromVisit(before, o.reply.value)
    ensures forall k :: k in db.destinations.rows && k != id ==> o.db.destinations.rows[k] == db.destinations.rows[k]
    ensures db.Valid() ==> o.db.Valid()
  {
    match DestinationQueries.GetDestinationById(db, id)
    case None => Outcome(db, None)
    case Some(existing) =>
      var toggled := existing.(isVisited := !existing.isVisited, updatedAt := Some(now));
      Outcome(db.(destinations := Replace(db.destinations, id, toggled)), Some(toggled))
  }

  /**
   * Toggling twice restores the visited flag; the record differs from the
   * original only in its update stamp, which is that of the second toggle.
   */
  lemma ToggleTwiceRestores(db: Database, id: int, t1: Instant, t2: Instant)
    requires id in db.destinations.rows
    ensures var db2 := ToggleDestinationVisited(ToggleDestinationVisited(db, id, t1).db, id, t2).db;
      && db2.destinations.rows == db.destinations.rows[id := db.destinations.rows[id].(updatedAt := Some(t2))]
      && db2.visitedPlaces == db.visitedPlaces
  {
    var db1 := ToggleDestinationVisited(db, id, t1).db;
    var db2 := ToggleDestinationVisited(db1, id, t2).db;
    assert db2.destinations.rows[id] == db.destinations.rows[id].(updatedAt := Some(t2));
  }

  /** A created destination can be read back under its new id. */
  lemma CreateThenGet(db: Database, dto: CreateDestinationDto, now: Instant)
    requires db.Valid()
    ensures var o := CreateDestination(db, dto, now);
      DestinationQueries.GetDestinationById(o.db, o.reply.id) == Some(o.reply.record)
  {
  }

  /** After a delete the id is no longer found, and a second delete reports false. */
  lemma DeleteThenGet(db: Database, id: int)
    ensures var db1 := DeleteDestination(db, id).db;
      && DestinationQueries.GetDestinationById(db1, id).None?
      && DeleteDestination(db1, id) == Outcome(db1, false)
  {
  }
}
