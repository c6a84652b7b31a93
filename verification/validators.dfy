/**
 * The FluentValidation rule sets for the four request bodies. A rule set is
 * a predicate that holds when the body produces no validation error. The
 * clock the visit-date rules read is the parameter `now`.
 */
module Validators {
  import opened Wrappers
  import opened Text
  import opened Entities
  import opened Mapping

  const MaxNameLength := 100
  const MaxDescriptionLength := 1000

  /** `NotEmpty()` on a string: `string.IsNullOrWhiteSpace` fails. */
  predicate NotEmpty(s: string) {
    !AllWhiteSpace(s)
  }

  /** `Length(1, 100)`, counted in UTF-16 code units. */
  predicate LengthOk(s: string) {
    1 <= Utf16Length(s) <= MaxNameLength
  }

  /** `NotEmpty().Length(1, 100)` on a required name or country. */
  predicate RequiredText(s: string)
    ensures RequiredText(s) <==> 1 <= Utf16Length(s) <= MaxNameLength && exists i :: 0 <= i < |s| && !IsWhiteSpace(s[i])
  {
    NotEmpty(s) && LengthOk(s)
  }

  /** `Length(1, 100).When(!string.IsNullOrEmpty(x))` on an optional name or country. */
  predicate OptionalText(s: Option<string>)
    ensures OptionalText(s) <==> s.None? || Utf16Length(s.value) <= MaxNameLength
  {
    IsNullOrEmpty(s) || LengthOk(s.value)
  }

  /** The accepted priority words. */
  predicate KnownPriority(word: string) {
    word in {"high", "medium", "low"}
  }

  /** `CreateDestinationValidator.BeValidPriority`: null is rejected. */
  predicate BeValidPriority(s: Option<string>)
    ensures BeValidPriority(s) ==> s.Some? && FormatPriority(ParsePriority(s)) == ToLower(s.value)
  {
    s.Some? && KnownPriority(ToLower(s.value))
  }

  /** `CreateDestinationValidator`. */
  predicate CreateDestinationValid(dto: CreateDestinationDto)
    ensures CreateDestinationValid(dto) ==> 1 <= Utf16Length(dto.name) <= MaxNameLength && 1 <= Utf16Length(dto.country) <= MaxNameLength
    ensures CreateDestinationValid(dto) ==> dto.priority.Some?
  {
    RequiredText(dto.name) && RequiredText(dto.country) && BeValidPriority(dto.priority)
  }

  /** `UpdateDestinationValidator`: every rule applies only to a non-empty member. */
  predicate UpdateDestinationValid(dto: UpdateDestinationDto)
    ensures UpdateDestinationValid(dto) ==> dto.name.None? || Utf16Length(dto.name.value) <= MaxNameLength
    ensures UpdateDestinationValid(dto) ==> dto.country.None? || Utf16Length(dto.country.value) <= MaxNameLength
  {
    OptionalText(dto.name) && OptionalText(dto.country)
    && (IsNullOrEmpty(dto.priority) || KnownPriority(ToLower(dto.priority.value)))
  }

  /** `InclusiveBetween(1, 5)` on a rating. */
  predicate RatingInRange(rating: int) {
    1 <= rating <= 5
  }

  /** `CreateVisitedPlaceValidator`, with `DateTime.Now` as `now`. */
  predicate CreateVisitedPlaceValid(dto: CreateVisitedPlaceDto, now: Instant)
    ensures CreateVisitedPlaceValid(dto, now) ==> MinInstant < dto.visitDate <= now && 1 <= dto.rating <= 5
    ensures CreateVisitedPlaceValid(dto, now) ==>
      1 <= Utf16Length(dto.name) <= MaxNameLength && 1 <= Utf16Length(dto.country) <= MaxNameLength
      && Utf16Length(dto.description) <= MaxDescriptionLength
  {
    && RequiredText(dto.name)
    && RequiredText(dto.country)
    && dto.visitDate != MinInstant && dto.visitDate <= now
    && Utf16Length(dto.description) <= MaxDescriptionLength
    && RatingInRange(dto.rating)
  }

  /** `UpdateVisitedPlaceValidator`: each rule only when its member is present (and, for text, non-empty). */
  predicate UpdateVisitedPlaceValid(dto: UpdateVisitedPlaceDto, now: Instant)
    ensures UpdateVisitedPlaceValid(dto, now) ==> dto.rating.None? || 1 <= dto.rating.value <= 5
    ensures UpdateVisitedPlaceValid(dto, now) ==> dto.visitDate.None? || dto.visitDate.value <= now
    ensures UpdateVisitedPlaceValid(dto, now) ==>
      && (dto.name.None? || Utf16Length(dto.name.value) <= MaxNameLength)
      && (dto.country.None? || Utf16Length(dto.country.value) <= MaxNameLength)
      && (dto.description.None? || Utf16Length(dto.description.value) <= MaxDescriptionLength)
  {
    && OptionalText(dto.name)
    && OptionalText(dto.country)
    && (dto.visitDate.None? || dto.visitDate.value <= now)
    && (IsNullOrEmpty(dto.description) || Utf16Length(dto.description.value) <= MaxDescriptionLength)
    && (dto.rating.None? || RatingInRange(dto.rating.value))
  }

  /**
   * A priority word passes the create validator exactly when the parser maps
   * it explicitly, never through the Medium fallback.
   */
  lemma ValidPriorityParsesExplicitly(s: Option<string>)
    ensures BeValidPriority(s) <==> s.Some? && FormatPriority(ParsePriority(s)) == ToLower(s.value)
  {
    if s.Some? {
      ParseIsExplicitIffKnown(s.value);
    }
  }

  /** Names made only of white space are refused on create, whatever their length. */
  lemma BlankNameRejected(dto: CreateDestinationDto)
    requires AllWhiteSpace(dto.name)
    ensures !CreateDestinationValid(dto)
  {
  }

  /**
   * Length is counted in UTF-16 code units: a name of more than 50
   * characters outside the Basic Multilingual Plane is too long, although it
   * has at most 100 characters.
   */
  lemma SupplementaryNameTooLong(dto: CreateDestinationDto)
    requires 50 < |dto.name| && forall i :: 0 <= i < |dto.name| ==> IsSupplementary(dto.name[i])
    ensures !CreateDestinationValid(dto)
  {
    Utf16LengthExtremes(dto.name);
  }

  /** A name of one no-break space (U+00A0) is white space to `NotEmpty()` and is refused. */
  lemma NoBreakSpaceNameRejected(dto: CreateDestinationDto)
    requires dto.name == "\U{A0}"
    ensures !CreateDestinationValid(dto)
  {
    assert IsWhiteSpace(dto.name[0]);
  }

  /**
   * A destination created from a valid request has a printable name and
   * country of at most 100 characters and the priority the request named.
   */
  lemma ValidCreateDestinationGivesWellFormedRecord(dto: CreateDestinationDto, now: Instant)
    requires CreateDestinationValid(dto)
    ensures var d := MapCreateDestination(dto, now);
      && RequiredText(d.name) && RequiredText(d.country)
      && FormatPriority(d.priority) == ToLower(dto.priority.value)
      && !d.isVisited && d.photos == []
  {
    ValidPriorityParsesExplicitly(dto.priority);
  }

  /**
   * The update validator skips empty strings, but the mapping copies every
   * non-null member: a validated update can blank a destination's name.
   */
  lemma ValidatedUpdateCanBlankName(d: Destination)
    ensures var u := UpdateDestinationDto(Some(""), None, None, None);
      UpdateDestinationValid(u) && ApplyDestinationUpdate(d, u).name == ""
  {
  }

  /** Update accepts a null or empty priority, and rejects a word that is not a priority. */
  lemma UpdatePriorityRule(u: UpdateDestinationDto)
    requires OptionalText(u.name) && OptionalText(u.country)
    ensures IsNullOrEmpty(u.priority) ==> UpdateDestinationValid(u)
    ensures u.priority.Some? && |u.priority.value| > 0 ==>
      (UpdateDestinationValid(u) <==> FormatPriority(ParsePriority(u.priority)) == ToLower(u.priority.value))
  {
    if u.priority.Some? {
      ParseIsExplicitIffKnown(u.priority.value);
    }
  }

  /** A visited place created from a valid request satisfies the create rules. */
  lemma ValidCreateVisitedPlaceGivesWellFormedRecord(dto: CreateVisitedPlaceDto, now: Instant, stamp: Instant)
    requires CreateVisitedPlaceValid(dto, now)
    ensures var v := MapCreateVisitedPlace(dto, stamp);
      && RequiredText(v.name) && RequiredText(v.country)
      && MinInstant < v.visitDate <= now
      && Utf16Length(v.description) <= MaxDescriptionLength
      && RatingInRange(v.rating)
      && v.photos == []
  {
  }

  /** The record invariants a validated update keeps: rating range, past visit date, description bound. */
  ghost predicate PlaceWithinRules(v: VisitedPlace, now: Instant) {
    RatingInRange(v.rating) && v.visitDate <= now && Utf16Length(v.description) <= MaxDescriptionLength
  }

  /**
   * A validated partial update keeps a visited place within the rating,
   * visit-date and description rules, and its name within 100 characters.
   */
  lemma ValidUpdatePreservesPlaceRules(v: VisitedPlace, u: UpdateVisitedPlaceDto, now: Instant)
    requires PlaceWithinRules(v, now) && Utf16Length(v.name) <= MaxNameLength
    requires UpdateVisitedPlaceValid(u, now)
    ensures PlaceWithinRules(ApplyVisitedPlaceUpdate(v, u), now)
    ensures Utf16Length(ApplyVisitedPlaceUpdate(v, u).name) <= MaxNameLength
  {
  }
}
