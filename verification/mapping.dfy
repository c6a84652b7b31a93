/**
 * The AutoMapper profile: the priority parser and printer, the create
 * mappings from request bodies to entities, and the partial-update mappings
 * that copy only the members a request actually carries.
 */
module Mapping {
  import opened Wrappers
  import opened Text
  import opened Entities

  /** `ParsePriority`: case-insensitive; null and every unknown word fall back to Medium. */
  function ParsePriority(s: Option<string>): (p: Priority)
    ensures p == High <==> s.Some? && ToLower(s.value) == "high"
    ensures p == Low <==> s.Some? && ToLower(s.value) == "low"
    ensures p == Medium <==> s.None? || ToLower(s.value) !in {"high", "low"}
  {
    match s
    case None => Medium
    case Some(text) =>
      var key := ToLower(text);
      if key == "high" then High
      else if key == "medium" then Medium
      else if key == "low" then Low
      else Medium
  }

  /** `Priority.ToString().ToLower()`, the priority as the API returns it. */
  function FormatPriority(p: Priority): (s: string)
    ensures IsLower(s) && |s| > 0
    ensures s in {"high", "medium", "low"}
  {
    match p
    case High => "high"
    case Medium => "medium"
    case Low => "low"
  }

  /** Distinct priorities print differently. */
  lemma FormatPriorityInjective(p: Priority, q: Priority)
    ensures FormatPriority(p) == FormatPriority(q) <==> p == q
  {
  }

  /** Parsing ignores letter case: "HIGH", "High" and "high" name the same priority. */
  lemma ParsePriorityIgnoresCase(s: string)
    ensures ParsePriority(Some(s)) == ParsePriority(Some(ToLower(s)))
  {
    ToLowerIdempotent(s);
  }

  /** Parsing the printed form of a priority gives the priority back. */
  lemma PriorityRoundTrip(p: Priority)
    ensures ParsePriority(Some(FormatPriority(p))) == p
  {
    ToLowerFixes(FormatPriority(p));
  }

  /**
   * A word parses to a priority without going through the Medium fallback
   * exactly when it is, up to case, the printed form of that priority.
   */
  lemma ParseIsExplicitIffKnown(s: string)
    ensures FormatPriority(ParsePriority(Some(s))) == ToLower(s)
        <==> ToLower(s) in {"high", "medium", "low"}
  {
  }

  /** `CreateDestinationDto`; the priority may arrive as JSON null. */
  datatype CreateDestinationDto = CreateDestinationDto(name: string, country: string, priority: Option<string>)

  /** `UpdateDestinationDto`: every member is optional. */
  datatype UpdateDestinationDto = UpdateDestinationDto(
    name: Option<string>,
    country: Option<string>,
    isVisited: Option<bool>,
    priority: Option<string>)

  datatype CreateVisitedPlaceDto = CreateVisitedPlaceDto(
    name: string,
    country: string,
    visitDate: Instant,
    description: string,
    rating: int)

  datatype UpdateVisitedPlaceDto = UpdateVisitedPlaceDto(
    name: Option<string>,
    country: Option<string>,
    visitDate: Option<Instant>,
    description: Option<string>,
    rating: Option<int>)

  /**
   * `Map<Destination>(CreateDestinationDto)` followed by the repository's
   * creation stamp: name and country are copied, the priority is parsed and
   * every other member keeps the entity's initial value.
   */
  function MapCreateDestination(dto: CreateDestinationDto, now: Instant): (d: Destination)
    ensures d.name == dto.name && d.country == dto.country
    ensures d.priority == ParsePriority(dto.priority)
    ensures d == NewDestination(now).(name := d.name, country := d.country, priority := d.priority)
  {
    NewDestination(now).(name := dto.name, country := dto.country, priority := ParsePriority(dto.priority))
  }

  /**
   * `Map(UpdateDestinationDto, existing)`: each non-null member overwrites
   * the entity's member (a priority word through `ParsePriority`); a null
   * member keeps the old value, and members the request does not carry are
   * never touched.
   */
  function ApplyDestinationUpdate(d: Destination, u: UpdateDestinationDto): (r: Destination)
    ensures u.name.None? ==> r.name == d.name
    ensures u.name.Some? ==> r.name == u.name.value
    ensures u.country.None? ==> r.country == d.country
    ensures u.country.Some? ==> r.country == u.country.value
    ensures u.isVisited.None? ==> r.isVisited == d.isVisited
    ensures u.isVisited.Some? ==> r.isVisited == u.isVisited.value
    ensures u.priority.None? ==> r.priority == d.priority
    ensures u.priority.Some? ==> r.priority == ParsePriority(u.priority)
    ensures r.dateVisited == d.dateVisited && r.description == d.description && r.rating == d.rating
    ensures r.photos == d.photos && r.createdAt == d.createdAt && r.updatedAt == d.updatedAt
  {
    d.(name := u.name.GetOr(d.name),
       country := u.country.GetOr(d.country),
       isVisited := u.isVisited.GetOr(d.isVisited),
       priority := if u.priority.Some? then ParsePriority(u.priority) else d.priority)
  }

  /** `Map<VisitedPlace>(CreateVisitedPlaceDto)` followed by the creation stamp. */
  function MapCreateVisitedPlace(dto: CreateVisitedPlaceDto, now: Instant): (v: VisitedPlace)
    ensures v.name == dto.name && v.country == dto.country && v.visitDate == dto.visitDate
    ensures v.description == dto.description && v.rating == dto.rating
    ensures v == NewVisitedPlace(now).(name := v.name, country := v.country, visitDate := v.visitDate,
                                       description := v.description, rating := v.rating)
  {
    NewVisitedPlace(now).(name := dto.name, country := dto.country, visitDate := dto.visitDate,
                          description := dto.description, rating := dto.rating)
  }

  /**
   * `Map(UpdateVisitedPlaceDto, existing)`: only non-null members are copied.
   * The request's photo list is not modelled, so the photos stay as they are.
   */
  function ApplyVisitedPlaceUpdate(v: VisitedPlace, u: UpdateVisitedPlaceDto): (r: VisitedPlace)
    ensures u.name.None? ==> r.name == v.name
    ensures u.name.Some? ==> r.name == u.name.value
    ensures u.country.None? ==> r.country == v.country
    ensures u.country.Some? ==> r.country == u.country.value
    ensures u.visitDate.None? ==> r.visitDate == v.visitDate
    ensures u.visitDate.Some? ==> r.visitDate == u.visitDate.value
    ensures u.description.None? ==> r.description == v.description
    ensures u.description.Some? ==> r.description == u.description.value
    ensures u.rating.None? ==> r.rating == v.rating
    ensures u.rating.Some? ==> r.rating == u.rating.value
    ensures r.photos == v.photos && r.createdAt == v.createdAt && r.updatedAt == v.updatedAt
  {
    v.(name := u.name.GetOr(v.name),
       country := u.country.GetOr(v.country),
       visitDate := u.visitDate.GetOr(v.visitDate),
       description := u.description.GetOr(v.description),
       rating := u.rating.GetOr(v.rating))
  }

  /** An update that carries no members changes nothing. */
  lemma EmptyDestinationUpdateIsIdentity(d: Destination)
    ensures ApplyDestinationUpdate(d, UpdateDestinationDto(None, None, None, None)) == d
  {
  }

  /** Applying the same update twice is the same as applying it once. */
  lemma DestinationUpdateIdempotent(d: Destination, u: UpdateDestinationDto)
    ensures ApplyDestinationUpdate(ApplyDestinationUpdate(d, u), u) == ApplyDestinationUpdate(d, u)
  {
  }

  /**
   * A null priority keeps the stored one, whereas an empty word is not null
   * and resets the priority to Medium through the parser's fallback.
   */
  lemma UpdatePriorityNullVersusEmpty(d: Destination, u: UpdateDestinationDto)
    ensures u.priority.None? ==> ApplyDestinationUpdate(d, u).priority == d.priority
    ensures u.priority == Some("") ==> ApplyDestinationUpdate(d, u).priority == Medium
  {
  }

  lemma EmptyVisitedPlaceUpdateIsIdentity(v: VisitedPlace)
    ensures ApplyVisitedPlaceUpdate(v, UpdateVisitedPlaceDto(None, None, None, None, None)) == v
  {
  }

  lemma VisitedPlaceUpdateIdempotent(v: VisitedPlace, u: UpdateVisitedPlaceDto)
    ensures ApplyVisitedPlaceUpdate(ApplyVisitedPlaceUpdate(v, u), u) == ApplyVisitedPlaceUpdate(v, u)
  {
  }
}
