/**
 * The visited-place queries: lookup by id and the travel statistics, which
 * aggregate over both stores.
 */
module VisitedPlaceQueries {
  import opened Wrappers
  import opened Text
  import opened Entities
  import opened Store
  import opened Aggregates

  /** `GetAllVisitedPlacesHandler`: every stored visited place exactly once, in the repository's order. */
  function GetAllVisitedPlaces(db: Database): (r: seq<VisitedPlace>)
    ensures db.Valid() ==> |r| == |db.visitedPlaces.rows|
    ensures db.Valid() ==> forall v :: v in r <==> exists id :: id in db.visitedPlaces.rows && db.visitedPlaces.rows[id] == v
  {
    var r := Listing(db.visitedPlaces);
    if db.visitedPlaces.Valid() then
      ListingContents(db.visitedPlaces);
      r
    else
      r
  }

  /** `GetVisitedPlaceByIdHandler`: null exactly when no visited place has this id. */
  function GetVisitedPlaceById(db: Database, id: int): (r: Option<VisitedPlace>)
    ensures r.None? <==> id !in db.visitedPlaces.rows
    ensures r.Some? ==> r.value == db.visitedPlaces.rows[id]
  {
    Find(db.visitedPlaces, id)
  }

  /** `TravelStatsDto`. */
  datatype TravelStats = TravelStats(
    dreamDestinations: nat,
    visitedPlaces: nat,
    sharedPhotos: nat,
    exploredCountries: nat)

  /** A destination not yet visited. */
  predicate IsDream(d: Destination) {
    !d.isVisited
  }

  /** `Country.Trim().ToLower()`: the form under which countries are told apart. */
  function CountryKey(v: VisitedPlace): string {
    ToLower(Trim(v.country))
  }

  /** The distinct normalised countries of the visited places. */
  function Countries(vs: seq<VisitedPlace>): set<string> {
    Image(vs, CountryKey)
  }

  /**
   * The statistics over one listing of each store: unvisited destinations,
   * visited places, photos across both stores, and distinct normalised
   * countries of the visited places.
   */
  function ComputeStats(vs: seq<VisitedPlace>, ds: seq<Destination>): (st: TravelStats)
    ensures st.visitedPlaces == |vs|
    ensures st.dreamDestinations == |DreamPositions(ds)|
    ensures st.dreamDestinations <= |ds|
    ensures st.dreamDestinations == |ds| <==> forall i :: 0 <= i < |ds| ==> !ds[i].isVisited
    ensures st.sharedPhotos == Total(vs, VisitedPlacePhotoCount) + Total(ds, DestinationPhotoCount)
    ensures st.exploredCountries <= st.visitedPlaces
    ensures st.exploredCountries == 0 <==> |vs| == 0
    ensures forall i :: 0 <= i < |vs| ==> CountryKey(vs[i]) in Countries(vs)
    ensures st.exploredCountries == |Countries(vs)|
  {
    CountExtremes(ds, IsDream);
    CountDreams(ds);
    TravelStats(
      Count(ds, IsDream),
      |vs|,
      Total(vs, VisitedPlacePhotoCount) + Total(ds, DestinationPhotoCount),
      |Countries(vs)|)
  }

  /** The positions of a listing that hold an unvisited destination. */
  function DreamPositions(ds: seq<Destination>): set<int> {
    set i | 0 <= i < |ds| && !ds[i].isVisited
  }

  /** The ids of the stored destinations not yet visited. */
  function DreamIds(t: Table<Destination>): set<int> {
    set id | id in t.rows && !t.rows[id].isVisited
  }

  /** The dream count of a listing is the number of its positions holding an unvisited destination. */
  lemma CountDreams(ds: seq<Destination>)
    ensures Count(ds, IsDream) == |DreamPositions(ds)|
  {
    CountIsIndexCount(ds, IsDream);
    assert Positions(ds, IsDream) == DreamPositions(ds);
  }

  /** The dream count of a valid store's listing is the number of stored unvisited destinations. */
  lemma CountStoredDreams(t: Table<Destination>)
    requires t.Valid()
    ensures Count(Listing(t), IsDream) == |DreamIds(t)|
  {
    CountListing(t, IsDream);
    forall id
      ensures id in Ids(t.rows, IsDream) <==> id in DreamIds(t)
    {
    }
    assert Ids(t.rows, IsDream) == DreamIds(t);
  }

  /** `GetTravelStatsHandler`: the statistics over the current contents of both stores. */
  function GetTravelStats(db: Database): (st: TravelStats)
    ensures db.Valid() ==> st.visitedPlaces == |db.visitedPlaces.rows|
    ensures db.Valid() ==> st.dreamDestinations <= |db.destinations.rows|
    ensures db.Valid() ==> st.dreamDestinations == |DreamIds(db.destinations)|
    ensures db.Valid() ==> st.exploredCountries == |StoredImage(db.visitedPlaces, CountryKey)|
    ensures db.Valid() ==> (st.exploredCountries == 0 <==> |db.visitedPlaces.rows| == 0)
  {
    var st := ComputeStats(Listing(db.visitedPlaces), Listing(db.destinations));
    if db.Valid() then
      ListingContents(db.visitedPlaces);
      ListingContents(db.destinations);
      CountStoredDreams(db.destinations);
      ImageOfListing(db.visitedPlaces, CountryKey);
      st
    else
      st
  }

  /** The statistics do not depend on the order in which either store lists its records. */
  lemma StatsIgnoreOrder(vs: seq<VisitedPlace>, vs': seq<VisitedPlace>, ds: seq<Destination>, ds': seq<Destination>)
    requires multiset(vs) == multiset(vs') && multiset(ds) == multiset(ds')
    ensures ComputeStats(vs, ds) == ComputeStats(vs', ds')
  {
    assert |vs| == |multiset(vs)| == |vs'|;
    CountPermutation(ds, ds', IsDream);
    TotalPermutation(vs, vs', VisitedPlacePhotoCount);
    TotalPermutation(ds, ds', DestinationPhotoCount);
    ImagePermutation(vs, vs', CountryKey);
  }

  lemma TrimFrance()
    ensures Trim("France") == "France"
  {
    var france := "France";
    assert france[0] == 'F' && france[5] == 'e';
    TrimOfWord(france);
  }

  lemma TrimUsa()
    ensures Trim("USA") == "USA"
  {
    var usa := "USA";
    assert usa[0] == 'U' && usa[2] == 'A';
    TrimOfWord(usa);
  }

  lemma LowerExamples()
    ensures ToLower("France") == "france" && ToLower("france") == "france" && ToLower("USA") == "usa"
  {
  }

  lemma CountriesOfPair(a: VisitedPlace, b: VisitedPlace)
    ensures Countries([a, b]) == {CountryKey(a), CountryKey(b)}
  {
    ImageOfPair(a, b, CountryKey);
  }

  /**
   * Countries that differ only in case and in surrounding white space are
   * counted once: "France" and " france " are one explored country.
   */
  lemma CountryCaseAndSpaceCountOnce(a: VisitedPlace, b: VisitedPlace, c: char, d: char)
    requires IsWhiteSpace(c) && IsWhiteSpace(d)
    requires b.country == [c] + ToLower(a.country) + [d]
    ensures ComputeStats([a, b], []).exploredCountries == 1
  {
    PaddedLowerSameKey(a, b, c, d);
    OneCountryPair(a, b);
  }

  /** The padded, lower-cased copy of a country keys like the original. */
  lemma PaddedLowerSameKey(a: VisitedPlace, b: VisitedPlace, c: char, d: char)
    requires IsWhiteSpace(c) && IsWhiteSpace(d)
    requires b.country == [c] + ToLower(a.country) + [d]
    ensures CountryKey(a) == CountryKey(b)
  {
    TrimOfPadded(ToLower(a.country), c, d);
    TrimLower(a.country);
    ToLowerIdempotent(Trim(a.country));
  }

  /** Two visited places with the same country key make one explored country. */
  lemma OneCountryPair(a: VisitedPlace, b: VisitedPlace)
    requires CountryKey(a) == CountryKey(b)
    ensures ComputeStats([a, b], []).exploredCountries == 1
  {
    ImageOfEqualPair(a, b, CountryKey);
  }

  /**
   * Toggling an existing destination moves it between dream and visited:
   * the dream count changes by one in the matching direction, and the other
   * statistics stay as they were.
   */
  lemma ToggleShiftsDreamCount(db: Database, id: int, toggled: Destination)
    requires db.Valid() && id in db.destinations.rows
    requires toggled.isVisited == !db.destinations.rows[id].isVisited
    requires toggled.photos == db.destinations.rows[id].photos
    ensures var before := GetTravelStats(db);
      var after := GetTravelStats(db.(destinations := Replace(db.destinations, id, toggled)));
      && after.visitedPlaces == before.visitedPlaces
      && after.exploredCountries == before.exploredCountries
      && after.sharedPhotos == before.sharedPhotos
      && (toggled.isVisited ==> after.dreamDestinations + 1 == before.dreamDestinations)
      && (!toggled.isVisited ==> after.dreamDestinations == before.dreamDestinations + 1)
  {
    var t := db.destinations;
    var prior := t.rows[id];
    var rest := Listing(Remove(t, id));
    ListingRemove(t, id);
    ListingReplace(t, id, toggled);
    assert multiset(Listing(Replace(t, id, toggled))) == multiset([toggled] + rest);
    assert multiset(Listing(t)) == multiset([prior] + rest);
    CountPermutation(Listing(t), [prior] + rest, IsDream);
    CountPermutation(Listing(Replace(t, id, toggled)), [toggled] + rest, IsDream);
    TotalPermutation(Listing(t), [prior] + rest, DestinationPhotoCount);
    TotalPermutation(Listing(Replace(t, id, toggled)), [toggled] + rest, DestinationPhotoCount);
    CountAppend([prior], rest, IsDream);
    CountAppend([toggled], rest, IsDream);
    TotalAppend([prior], rest, DestinationPhotoCount);
    TotalAppend([toggled], rest, DestinationPhotoCount);
  }

  /**
   * Creating a visited place adds one to the visited-place count and its
   * photos to the shared photos, and leaves the dream count alone.
   */
  lemma CreateAddsVisitedPlace(db: Database, v: VisitedPlace)
    requires db.Valid()
    ensures var after := GetTravelStats(db.(visitedPlaces := Insert(db.visitedPlaces, v).0));
      && after.visitedPlaces == GetTravelStats(db).visitedPlaces + 1
      && after.dreamDestinations == GetTravelStats(db).dreamDestinations
      && after.sharedPhotos == GetTravelStats(db).sharedPhotos + |v.photos|
      && after.exploredCountries >= 1
  {
    var t := db.visitedPlaces;
    var listed := Listing(Insert(t, v).0);
    ListingInsert(t, v);
    assert multiset(Listing(t) + [v]) == multiset(Listing(t)) + multiset{v};
    TotalPermutation(listed, Listing(t) + [v], VisitedPlacePhotoCount);
    TotalAppend(Listing(t), [v], VisitedPlacePhotoCount);
    assert [v][1..] == [];
  }

  lemma TotalOfPair<T>(a: T, b: T, f: T -> nat)
    ensures Total([a, b], f) == f(a) + f(b)
  {
    assert [a, b][1..] == [b];
    assert [b][1..] == [];
    assert Total([b], f) == f(b) + Total([], f);
  }

  lemma TotalOfTriple<T>(a: T, b: T, c: T, f: T -> nat)
    ensures Total([a, b, c], f) == f(a) + f(b) + f(c)
  {
    assert [a, b, c][1..] == [b, c];
    TotalOfPair(b, c, f);
  }

  lemma CountOfTriple<T>(a: T, b: T, c: T, p: T -> bool)
    ensures Count([a, b, c], p) == (if p(a) then 1 else 0) + (if p(b) then 1 else 0) + (if p(c) then 1 else 0)
  {
    assert [a, b, c][1..] == [b, c];
    assert [b, c][1..] == [c];
    assert [c][1..] == [];
    assert Count([c], p) == (if p(c) then 1 else 0) + Count([], p);
    assert Count([b, c], p) == (if p(b) then 1 else 0) + Count([c], p);
  }

  lemma ImageOfDistinctPair<T, U>(a: T, b: T, f: T -> U)
    requires f(a) != f(b)
    ensures |Image([a, b], f)| == 2
  {
    assert [a, b][1..] == [b];
    assert [b][1..] == [];
    assert Image([a, b], f) == {f(a), f(b)};
  }

  lemma KeyOfUsa(v: VisitedPlace)
    requires v.country == "USA"
    ensures CountryKey(v) == "usa"
  {
    TrimUsa();
    LowerExamples();
  }

  lemma KeyOfFrance(v: VisitedPlace)
    requires v.country == "France"
    ensures CountryKey(v) == "france"
  {
    TrimFrance();
    LowerExamples();
  }

  lemma FranceIsNotUsa()
    ensures "france" != "usa"
  {
    assert "france"[0] != "usa"[0];
  }

  lemma FranceAndUsaKeysDiffer(v1: VisitedPlace, v2: VisitedPlace)
    requires v1.country == "France" && v2.country == "USA"
    ensures CountryKey(v1) != CountryKey(v2)
  {
    KeyOfFrance(v1);
    KeyOfUsa(v2);
    FranceIsNotUsa();
  }

  lemma FranceAndUsaAreTwoCountries(v1: VisitedPlace, v2: VisitedPlace)
    requires v1.country == "France" && v2.country == "USA"
    ensures |Countries([v1, v2])| == 2
  {
    FranceAndUsaKeysDiffer(v1, v2);
    ImageOfDistinctPair(v1, v2, CountryKey);
  }

  /** Stats for two visited places in France and the USA and three destinations, one not yet visited. */
  lemma ExampleStats(v1: VisitedPlace, v2: VisitedPlace, d1: Destination, d2: Destination, d3: Destination)
    requires v1.country == "France" && |v1.photos| == 2
    requires v2.country == "USA" && |v2.photos| == 1
    requires d1.isVisited && |d1.photos| == 1
    requires !d2.isVisited && |d2.photos| == 0
    requires d3.isVisited && |d3.photos| == 1
    ensures ComputeStats([v1, v2], [d1, d2, d3]) == TravelStats(1, 2, 5, 2)
  {
    FranceAndUsaAreTwoCountries(v1, v2);
    TotalOfPair(v1, v2, VisitedPlacePhotoCount);
    TotalOfTriple(d1, d2, d3, DestinationPhotoCount);
    CountOfTriple(d1, d2, d3, IsDream);
  }
}
