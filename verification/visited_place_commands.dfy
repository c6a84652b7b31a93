/**
 * The visited-place command handlers: create, partial update and delete,
 * each working on the visited-place table only.
 */
module VisitedPlaceCommands {
  import opened Wrappers
  import opened Entities
  import opened Store
  import opened Commands
  import opened Mapping
  import VisitedPlaceQueries

  /** `CreateVisitedPlaceHandler`: maps the request and stores it under a fresh id. */
  function CreateVisitedPlace(db: Database, dto: CreateVisitedPlaceDto, now: Instant): (o: Outcome<Stored<VisitedPlace>>)
    requires db.Valid()
    ensures o.db.Valid()
    ensures o.db.destinations == db.destinations
    ensures o.reply.id !in db.visitedPlaces.rows
    ensures o.db.visitedPlaces.rows.Keys == db.visitedPlaces.rows.Keys + {o.reply.id}
    ensures |o.db.visitedPlaces.rows| == |db.visitedPlaces.rows| + 1
    ensures o.db.visitedPlaces.rows[o.reply.id] == o.reply.record == MapCreateVisitedPlace(dto, now)
    ensures forall k :: k in db.visitedPlaces.rows ==> o.db.visitedPlaces.rows[k] == db.visitedPlaces.rows[k]
  {
    var v := MapCreateVisitedPlace(dto, now);
    var (t, id) := Insert(db.visitedPlaces, v);
    Outcome(db.(visitedPlaces := t), Stored(id, v))
  }

  /**
   * `UpdateVisitedPlaceHandler`: null for a missing id, with nothing
   * changed; otherwise the non-null members are applied and `UpdatedAt`
   * stamped, and no other record changes.
   */
  function UpdateVisitedPlace(db: Database, id: int, dto: UpdateVisitedPlaceDto, now: Instant): (o: Outcome<Option<VisitedPlace>>)
    ensures o.reply.None? <==> id !in db.visitedPlaces.rows
    ensures o.reply.None? ==> o.db == db
    ensures o.db.destinations == db.destinations
    ensures o.db.visitedPlaces.rows.Keys == db.visitedPlaces.rows.Keys
    ensures o.reply.Some? ==>
      && o.db.visitedPlaces.rows[id] == o.reply.value
      && o.reply.value == ApplyVisitedPlaceUpdate(db.visitedPlaces.rows[id], dto).(updatedAt := Some(now))
    ensures forall k :: k in db.visitedPlaces.rows && k != id ==> o.db.visitedPlaces.rows[k] == db.visitedPlaces.rows[k]
    ensures db.Valid() ==> o.db.Valid()
  {
    match VisitedPlaceQueries.GetVisitedPlaceById(db, id)
    case None => Outcome(db, None)
    case Some(existing) =>
      var updated := ApplyVisitedPlaceUpdate(existing, dto).(updatedAt := Some(now));
      Outcome(db.(visitedPlaces := Replace(db.visitedPlaces, id, updated)), Some(updated))
  }

  /** `DeleteVisitedPlaceHandler`: false exactly when the id is absent; otherwise only that id goes. */
  function DeleteVisitedPlace(db: Database, id: int): (o: Outcome<bool>)
    ensures o.reply <==> id in db.visitedPlaces.rows
    ensures !o.reply ==> o.db == db
    ensures o.db.destinations == db.destinations
    ensures o.db.visitedPlaces.rows.Keys == db.visitedPlaces.rows.Keys - {id}
    ensures forall k :: k in o.db.visitedPlaces.rows ==> o.db.visitedPlaces.rows[k] == db.visitedPlaces.rows[k]
    ensures db.Valid() ==> o.db.Valid()
  {
    match VisitedPlaceQueries.GetVisitedPlaceById(db, id)
    case None => Outcome(db, false)
    case Some(_) => Outcome(db.(visitedPlaces := Remove(db.visitedPlaces, id)), true)
  }

  /** An update that omits the rating keeps the old rating and the photos (the request's photo list is not modelled). */
  lemma UpdateWithoutRatingKeepsRating(db: Database, id: int, dto: UpdateVisitedPlaceDto, now: Instant)
    requires id in db.visitedPlaces.rows && dto.rating.None?
    ensures var o := UpdateVisitedPlace(db, id, dto, now);
      && o.db.visitedPlaces.rows[id].rating == db.visitedPlaces.rows[id].rating
      && o.db.visitedPlaces.rows[id].photos == db.visitedPlaces.rows[id].photos
  {
  }
}
