/**
 * The guard code of the two API controllers, as pure decisions. A reply is
 * one of the result kinds the controllers produce; the reason carried by a
 * BadRequest or NotFound stands for the message text. Exceptions and the
 * 500 replies are not part of this model.
 */
module Controllers {
  import opened Wrappers
  import opened Text
  import opened Entities
  import opened Store
  import opened Commands
  import Validators
  import Mapping
  import DestinationQueries
  import VisitedPlaceQueries
  import DestinationCommands
  import VisitedPlaceCommands

  datatype Reason =
    | InvalidModel
    | NoPhotos
    | TooLarge(fileName: string)
    | InvalidFormat(fileName: string)
    | RatingOutOfRange
    | RecordNotFound
    | PhotoNotFound
    | PhotoNotOwned

  datatype Response<T> = Ok(value: T) | NoContent | BadRequest(reason: Reason) | NotFound(reason: Reason)

  /** The whitelist `IsValidImageType` compares against. */
  const ValidImageTypes: seq<string> := ["image/jpeg", "image/jpg", "image/png", "image/gif", "image/webp"]

  /** `a` and `b` spell the same text once upper-case letters are folded. */
  predicate SameIgnoringCase(a: string, b: string) {
    |a| == |b| && forall i :: 0 <= i < |a| ==> LowerChar(a[i]) == LowerChar(b[i])
  }

  lemma ValidImageTypesAreLower()
    ensures forall t :: t in ValidImageTypes ==> IsLower(t)
  {
  }

  /** Against a lower-case target, folding the whole string and comparing agrees with a per-letter comparison. */
  lemma SameIgnoringCaseIsLowerEquality(a: string, b: string)
    requires IsLower(b)
    ensures SameIgnoringCase(a, b) <==> ToLower(a) == b
  {
    if SameIgnoringCase(a, b) {
      assert forall i :: 0 <= i < |a| ==> ToLower(a)[i] == b[i];
    }
  }

  /**
   * `IsValidImageType`: the lower-cased content type is one of the five
   * whitelisted types; equivalently, the content type matches one of them
   * letter by letter, ignoring case.
   */
  function IsValidImageType(contentType: string): (ok: bool)
    ensures ok <==> exists t :: t in ValidImageTypes && SameIgnoringCase(contentType, t)
  {
    ValidImageTypesAreLower();
    forall t | t in ValidImageTypes
      ensures SameIgnoringCase(contentType, t) <==> ToLower(contentType) == t
    {
      SameIgnoringCaseIsLowerEquality(contentType, t);
    }
    ToLower(contentType) in ValidImageTypes
  }

  /** Case does not matter to the whitelist. */
  lemma ImageTypeIgnoresCase(a: string, b: string)
    requires SameIgnoringCase(a, b)
    ensures IsValidImageType(a) == IsValidImageType(b)
  {
    if IsValidImageType(a) {
      var t :| t in ValidImageTypes && SameIgnoringCase(a, t);
      assert SameIgnoringCase(b, t);
    }
    if IsValidImageType(b) {
      var t :| t in ValidImageTypes && SameIgnoringCase(b, t);
      assert SameIgnoringCase(a, t);
    }
  }

  /** An upper-case spelling of a whitelisted type is accepted. */
  lemma UpperCasePngAccepted()
    ensures IsValidImageType("IMAGE/PNG")
  {
    assert SameIgnoringCase("IMAGE/PNG", "image/png");
  }

  /** A type outside the whitelist is refused, however close its spelling. */
  lemma BmpAndSvgRefused()
    ensures !IsValidImageType("image/bmp")
    ensures !IsValidImageType("image/svg+xml")
  {
    assert LowerChar("image/bmp"[6]) == 'b';
    assert LowerChar("image/svg+xml"[6]) == 's';
  }

  /** The upload limit, 10 MiB; a file of exactly this size passes. */
  const MaxPhotoBytes: int := 10 * 1024 * 1024

  /** The parts of an uploaded form file the guard reads. */
  datatype Upload = Upload(fileName: string, contentType: string, size: int)

  predicate Acceptable(u: Upload) {
    u.size <= MaxPhotoBytes && IsValidImageType(u.contentType)
  }

  /** The per-photo checks of the upload loop body: size first, then type. */
  function PhotoProblem(u: Upload): (p: Option<Reason>)
    ensures p.None? <==> Acceptable(u)
    ensures u.size > MaxPhotoBytes ==> p == Some(TooLarge(u.fileName))
    ensures u.size <= MaxPhotoBytes && !IsValidImageType(u.contentType) ==> p == Some(InvalidFormat(u.fileName))
  {
    if u.size > MaxPhotoBytes then Some(TooLarge(u.fileName))
    else if !IsValidImageType(u.contentType) then Some(InvalidFormat(u.fileName))
    else None
  }

  /** Position of the first photo the loop rejects, or `|us|` when it rejects none. */
  function FirstRejected(us: seq<Upload>): (k: nat)
    ensures k <= |us|
    ensures forall j :: 0 <= j < k ==> Acceptable(us[j])
    ensures k < |us| ==> !Acceptable(us[k])
  {
    if |us| == 0 then 0
    else if !Acceptable(us[0]) then 0
    else 1 + FirstRejected(us[1..])
  }

  /** The reason the photo loop returns with, if any: the problem of the first rejected photo. */
  function FirstProblem(us: seq<Upload>): (p: Option<Reason>)
    ensures p.None? <==> forall i :: 0 <= i < |us| ==> Acceptable(us[i])
    ensures p.Some? ==> p == PhotoProblem(us[FirstRejected(us)])
  {
    var k := FirstRejected(us);
    if k == |us| then None else PhotoProblem(us[k])
  }

  /** A problem with a photo is never hidden by a later, acceptable photo, nor reported for one. */
  lemma FirstProblemAppend(us: seq<Upload>, vs: seq<Upload>)
    ensures FirstProblem(us).Some? ==> FirstProblem(us + vs) == FirstProblem(us)
    ensures FirstProblem(us).None? ==> FirstProblem(us + vs) == FirstProblem(vs)
  {
    FirstRejectedAppend(us, vs);
  }

  lemma {:induction false} FirstRejectedAppend(us: seq<Upload>, vs: seq<Upload>)
    ensures FirstRejected(us) < |us| ==> FirstRejected(us + vs) == FirstRejected(us)
    ensures FirstRejected(us) == |us| ==> FirstRejected(us + vs) == |us| + FirstRejected(vs)
  {
    if |us| > 0 {
      assert (us + vs)[0] == us[0];
      assert (us + vs)[1..] == us[1..] + vs;
      FirstRejectedAppend(us[1..], vs);
    } else {
      assert us + vs == vs;
    }
  }

  /**
   * The upload guard shared by both controllers. An absent or empty list is
   * refused before the owner is looked up; a missing owner is reported
   * before any photo is examined; then the first unacceptable photo decides.
   * `Ok(ps)` means the upload service is called with exactly `ps`; on any
   * other reply it is not called, so nothing is stored.
   */
  function UploadGuard(ownerExists: bool, photos: Option<seq<Upload>>): (r: Response<seq<Upload>>)
    ensures IsNullOrEmptyList(photos) ==> r == BadRequest(NoPhotos)
    ensures !IsNullOrEmptyList(photos) && !ownerExists ==> r == NotFound(RecordNotFound)
    ensures r.Ok? <==>
      && !IsNullOrEmptyList(photos) && ownerExists
      && forall i :: 0 <= i < |photos.value| ==> Acceptable(photos.value[i])
    ensures r.Ok? ==> r.value == photos.value
    ensures r.BadRequest? && r.reason != NoPhotos ==>
      && ownerExists && photos.Some?
      && FirstRejected(photos.value) < |photos.value|
      && Some(r.reason) == PhotoProblem(photos.value[FirstRejected(photos.value)])
    ensures !r.NoContent?
  {
    if IsNullOrEmptyList(photos) then BadRequest(NoPhotos)
    else if !ownerExists then NotFound(RecordNotFound)
    else match FirstProblem(photos.value)
      case Some(p) => BadRequest(p)
      case None => Ok(photos.value)
  }

  predicate IsNullOrEmptyList<T>(xs: Option<seq<T>>) {
    xs.None? || |xs.value| == 0
  }

  /** A list holding one acceptable photo and one too large: refused with the large photo's name. */
  lemma OversizedPhotoRefused(good: Upload, big: Upload)
    requires Acceptable(good) && big.size == MaxPhotoBytes + 1
    ensures UploadGuard(true, Some([good, big])) == BadRequest(TooLarge(big.fileName))
  {
    assert FirstRejected([big]) == 0;
    assert [good, big][1..] == [big];
  }

  /** A photo of exactly the limit passes the size test. */
  lemma ExactLimitAccepted(u: Upload)
    requires u.size == MaxPhotoBytes && IsValidImageType(u.contentType)
    ensures UploadGuard(true, Some([u])) == Ok([u])
  {
    assert FirstRejected([u][1..]) == 0;
  }

  /** `UploadDestinationPhotos`: the guard, with the owner looked up among the destinations. */
  function UploadDestinationPhotos(db: Database, id: int, photos: Option<seq<Upload>>): (r: Response<seq<Upload>>)
    ensures r.NotFound? <==> !IsNullOrEmptyList(photos) && id !in db.destinations.rows
    ensures r.Ok? ==> photos.Some? && id in db.destinations.rows && r.value == photos.value
    ensures r.Ok? <==> !IsNullOrEmptyList(photos) && id in db.destinations.rows && FirstProblem(photos.value).None?
  {
    UploadGuard(DestinationQueries.GetDestinationById(db, id).Some?, photos)
  }

  /** `UploadVisitedPlacePhotos`: the same guard, with the owner looked up among the visited places. */
  function UploadVisitedPlacePhotos(db: Database, id: int, photos: Option<seq<Upload>>): (r: Response<seq<Upload>>)
    ensures r.NotFound? <==> !IsNullOrEmptyList(photos) && id !in db.visitedPlaces.rows
    ensures r.Ok? ==> photos.Some? && id in db.visitedPlaces.rows && r.value == photos.value
    ensures r.Ok? <==> !IsNullOrEmptyList(photos) && id in db.visitedPlaces.rows && FirstProblem(photos.value).None?
  {
    UploadGuard(VisitedPlaceQueries.GetVisitedPlaceById(db, id).Some?, photos)
  }

  /** Both controllers decide an upload the same way once the owner's existence is known. */
  lemma UploadGuardsAgree(db: Database, id: int, photos: Option<seq<Upload>>)
    requires (id in db.destinations.rows) == (id in db.visitedPlaces.rows)
    ensures UploadDestinationPhotos(db, id, photos) == UploadVisitedPlacePhotos(db, id, photos)
  {
  }

  /** The rating guard of both rating endpoints; `Ok(r)` means the service is called with `r`. */
  function CheckRating(rating: int): (r: Response<int>)
    ensures r.Ok? <==> 1 <= rating <= 5
    ensures r.Ok? ==> r.value == rating
    ensures !r.Ok? ==> r == BadRequest(RatingOutOfRange)
  {
    if rating < 1 || rating > 5 then BadRequest(RatingOutOfRange) else Ok(rating)
  }

  /** The controller's rating guard admits exactly the ratings the visited-place validator admits. */
  lemma RatingGuardMatchesValidator(rating: int)
    ensures CheckRating(rating).Ok? <==> Validators.RatingInRange(rating)
  {
  }

  /** What a `File(...)` reply carries, apart from the bytes. */
  datatype FileReply = FileReply(photoId: int, contentType: string, fileName: string)

  /**
   * `GetDestinationPhoto` / `GetVisitedPlacePhoto`: `found` is the photo the
   * repository returned for the requested photo id. A missing photo, or one
   * that belongs to another owner than the route id, is NotFound.
   */
  function ServePhoto(found: Option<Photo>, routeId: int): (r: Response<FileReply>)
    ensures r.Ok? <==> found.Some? && found.value.ownerId == routeId
    ensures found.None? ==> r == NotFound(PhotoNotFound)
    ensures found.Some? && found.value.ownerId != routeId ==> r == NotFound(PhotoNotOwned)
    ensures r.Ok? ==> r.value == FileReply(found.value.id, found.value.contentType, found.value.fileName)
  {
    match found
    case None => NotFound(PhotoNotFound)
    case Some(p) =>
      if p.ownerId != routeId then NotFound(PhotoNotOwned)
      else Ok(FileReply(p.id, p.contentType, p.fileName))
  }

  /** The thumbnail endpoints: the same checks, the original photo under a "thumb_" name. */
  function ServeThumbnail(found: Option<Photo>, routeId: int): (r: Response<FileReply>)
    ensures r.Ok? <==> found.Some? && found.value.ownerId == routeId
    ensures r.Ok? ==> r.value == FileReply(found.value.id, found.value.contentType, "thumb_" + found.value.fileName)
    ensures !r.Ok? ==> r.NotFound?
  {
    match found
    case None => NotFound(PhotoNotFound)
    case Some(p) =>
      if p.ownerId != routeId then NotFound(PhotoNotOwned)
      else Ok(FileReply(p.id, p.contentType, "thumb_" + p.fileName))
  }

  /** A thumbnail is refused for exactly the same reasons as the photo, and otherwise differs only in its name. */
  lemma ThumbnailMirrorsPhoto(found: Option<Photo>, routeId: int)
    ensures var photo, thumb := ServePhoto(found, routeId), ServeThumbnail(found, routeId);
      && (photo.NotFound? ==> thumb == photo)
      && (photo.Ok? ==> thumb == Ok(photo.value.(fileName := "thumb_" + photo.value.fileName)))
  {
  }

  /** A service result that is null becomes NotFound; anything else is Ok. */
  function FoundOrNotFound<T>(x: Option<T>): (r: Response<T>)
    ensures r.Ok? <==> x.Some?
    ensures r.Ok? ==> r.value == x.value
    ensures x.None? ==> r == NotFound(RecordNotFound)
  {
    match x
    case None => NotFound(RecordNotFound)
    case Some(v) => Ok(v)
  }

  function GetDestinationEndpoint(db: Database, id: int): (r: Response<Destination>)
    ensures r.NotFound? <==> id !in db.destinations.rows
    ensures r.Ok? ==> r.value == db.destinations.rows[id]
  {
    FoundOrNotFound(DestinationQueries.GetDestinationById(db, id))
  }

  function GetVisitedPlaceEndpoint(db: Database, id: int): (r: Response<VisitedPlace>)
    ensures r.NotFound? <==> id !in db.visitedPlaces.rows
    ensures r.Ok? ==> r.value == db.visitedPlaces.rows[id]
  {
    FoundOrNotFound(VisitedPlaceQueries.GetVisitedPlaceById(db, id))
  }

  /**
   * `UpdateDestination`: an invalid model is refused before the handler runs
   * (and the store is untouched); a missing id is NotFound, also with the
   * store untouched.
   */
  function UpdateDestinationEndpoint(db: Database, id: int, dto: Mapping.UpdateDestinationDto, modelValid: bool, now: Instant)
    : (o: Outcome<Response<Destination>>)
    ensures !modelValid ==> o == Outcome(db, BadRequest(InvalidModel))
    ensures modelValid ==> (o.reply.NotFound? <==> id !in db.destinations.rows)
    ensures !o.reply.Ok? ==> o.db == db
    ensures o.reply.Ok? ==> id in o.db.destinations.rows && o.reply.value == o.db.destinations.rows[id]
    ensures o.db.visitedPlaces == db.visitedPlaces
  {
    if !modelValid then Outcome(db, BadRequest(InvalidModel))
    else
      var u := DestinationCommands.UpdateDestination(db, id, dto, now);
      Outcome(u.db, FoundOrNotFound(u.reply))
  }

  /** `UpdateVisitedPlace`: as for destinations, on the visited-place table. */
  function UpdateVisitedPlaceEndpoint(db: Database, id: int, dto: Mapping.UpdateVisitedPlaceDto, modelValid: bool, now: Instant)
    : (o: Outcome<Response<VisitedPlace>>)
    ensures !modelValid ==> o == Outcome(db, BadRequest(InvalidModel))
    ensures modelValid ==> (o.reply.NotFound? <==> id !in db.visitedPlaces.rows)
    ensures !o.reply.Ok? ==> o.db == db
    ensures o.reply.Ok? ==> id in o.db.visitedPlaces.rows && o.reply.value == o.db.visitedPlaces.rows[id]
    ensures o.db.destinations == db.destinations
  {
    if !modelValid then Outcome(db, BadRequest(InvalidModel))
    else
      var u := VisitedPlaceCommands.UpdateVisitedPlace(db, id, dto, now);
      Outcome(u.db, FoundOrNotFound(u.reply))
  }

  /** `ToggleDestinationVisited`: NotFound exactly for a missing id, which leaves the store untouched. */
  function ToggleEndpoint(db: Database, id: int, now: Instant): (o: Outcome<Response<Destination>>)
    ensures o.reply.NotFound? <==> id !in db.destinations.rows
    ensures o.reply.NotFound? ==> o.db == db
    ensures o.reply.Ok? ==> o.reply.value.isVisited == !db.destinations.rows[id].isVisited
    ensures o.db.visitedPlaces == db.visitedPlaces
  {
    var t := DestinationCommands.ToggleDestinationVisited(db, id, now);
    Outcome(t.db, FoundOrNotFound(t.reply))
  }

  /** The delete endpoints: `false` from the handler is NotFound, `true` is NoContent. */
  function DeleteReply(success: bool): (r: Response<()>)
    ensures r == NoContent <==> success
    ensures !success ==> r.NotFound?
  {
    if !success then NotFound(RecordNotFound) else NoContent
  }

  function DeleteDestinationEndpoint(db: Database, id: int): (o: Outcome<Response<()>>)
    ensures o.reply == NoContent <==> id in db.destinations.rows
    ensures o.reply.NotFound? <==> id !in db.destinations.rows
    ensures o.reply.NotFound? ==> o.db == db
    ensures id !in o.db.destinations.rows
    ensures o.db.visitedPlaces == db.visitedPlaces
  {
    var d := DestinationCommands.DeleteDestination(db, id);
    Outcome(d.db, DeleteReply(d.reply))
  }

  function DeleteVisitedPlaceEndpoint(db: Database, id: int): (o: Outcome<Response<()>>)
    ensures o.reply == NoContent <==> id in db.visitedPlaces.rows
    ensures o.reply.NotFound? <==> id !in db.visitedPlaces.rows
    ensures o.reply.NotFound? ==> o.db == db
    ensures id !in o.db.visitedPlaces.rows
    ensures o.db.destinations == db.destinations
  {
    var d := VisitedPlaceCommands.DeleteVisitedPlace(db, id);
    Outcome(d.db, DeleteReply(d.reply))
  }

  /** Deleting twice: the second delete of the same id is NotFound and changes nothing. */
  lemma SecondDeleteIsNotFound(db: Database, id: int)
    ensures var first := DeleteVisitedPlaceEndpoint(db, id);
      var second := DeleteVisitedPlaceEndpoint(first.db, id);
      second.reply.NotFound? && second.db == first.db
  {
  }
}
