/**
 * The two domain entities, `Destination` and `VisitedPlace`, their photos and
 * the ordered `Priority` enum. The record id is the key under which the store
 * keeps a record, so it is not repeated inside the record.
 */
module Entities {
  import opened Wrappers

  /** A `DateTime` as a tick count; `default(DateTime)` is tick 0. */
  type Instant = nat

  const MinInstant: Instant := 0

  /** `Priority`, declared Low = 0, Medium = 1, High = 2. */
  datatype Priority = Low | Medium | High

  /** The enum's underlying integer value. */
  function Rank(p: Priority): (n: nat)
    ensures n <= 2
    ensures n == 0 <==> p == Low
    ensures n == 2 <==> p == High
  {
    match p
    case Low => 0
    case Medium => 1
    case High => 2
  }

  /** The enum values are totally and strictly ordered by their integer values. */
  lemma PriorityOrder(p: Priority, q: Priority)
    ensures Rank(Low) < Rank(Medium) < Rank(High)
    ensures Rank(p) == Rank(q) <==> p == q
    ensures Rank(p) < Rank(q) || Rank(p) == Rank(q) || Rank(q) < Rank(p)
  {
  }

  /**
   * A stored photo: the owner it belongs to, its file name, MIME type and
   * size in bytes. The image bytes are identified by the photo id.
   */
  datatype Photo = Photo(id: int, ownerId: int, fileName: string, contentType: string, size: int)

  datatype Destination = Destination(
    name: string,
    country: string,
    isVisited: bool,
    priority: Priority,
    dateVisited: Option<Instant>,
    description: Option<string>,
    rating: Option<int>,
    photos: seq<Photo>,
    createdAt: Instant,
    updatedAt: Option<Instant>)

  datatype VisitedPlace = VisitedPlace(
    name: string,
    country: string,
    visitDate: Instant,
    description: string,
    rating: int,
    photos: seq<Photo>,
    createdAt: Instant,
    updatedAt: Option<Instant>)

  const DefaultRating := 5

  /** `new Destination()` with the property initialisers, created at `now`. */
  function NewDestination(now: Instant): (d: Destination)
    ensures !d.isVisited && d.priority == Medium && d.photos == []
    ensures d.dateVisited.None? && d.description.None? && d.rating.None?
    ensures d.name == "" && d.country == ""
    ensures d.createdAt == now && d.updatedAt.None?
  {
    Destination("", "", false, Medium, None, None, None, [], now, None)
  }

  /** `new VisitedPlace()` with the property initialisers, created at `now`. */
  function NewVisitedPlace(now: Instant): (v: VisitedPlace)
    ensures v.rating == DefaultRating && 1 <= v.rating <= 5
    ensures v.description == "" && v.photos == []
    ensures v.visitDate == MinInstant
    ensures v.createdAt == now && v.updatedAt.None?
  {
    VisitedPlace("", "", MinInstant, "", DefaultRating, [], now, None)
  }

  /** Number of photos a record holds (`Photos?.Count ?? 0`; the list is never null here). */
  function DestinationPhotoCount(d: Destination): nat {
    |d.photos|
  }

  function VisitedPlacePhotoCount(v: VisitedPlace): nat {
    |v.photos|
  }
}
