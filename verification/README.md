# Wanderlust Memoir — a Dafny model of the API's decision logic

Wanderlust Memoir is a travel-journal web API. It keeps two kinds of record:

- **destinations**: places a traveller wants to go, each with a priority and a visited flag;
- **visited places**: trips already made, each with a visit date, a description and a rating from 1 to 5.

Either kind can carry photos. This project models the logic that decides what the API stores and returns, as pure Dafny functions over an abstract store, and proves properties about it.

- `entities.dfy` (`Entities`): the two entities with their initial values, the priority enum, and photos reduced to id, owner, file name, content type and size.
- `store.dfy` (`Store`, `Commands`): each repository as a table from id to record, plus the identity counter. The repository's `GetAllAsync` sets no order; the model lists rows in ascending id order. Every handler takes the whole database and returns the new database with its reply, so "the other table is untouched" can be stated.
- `mapping.dfy` (`Mapping`): the AutoMapper profile. It covers the case-insensitive priority parser with its Medium fallback, the priority printer, the create mappings, and the partial-update mappings that skip null members.
- `validators.dfy` (`Validators`): the four FluentValidation rule sets as predicates. The clock they read is the parameter `now`.
- `destination_queries.dfy` (`DestinationQueries`): the destination listing order, priority descending then name ascending. It is written as a stable insertion sort, proved ordered, a permutation of the input, and stable.
- `destination_commands.dfy`, `visited_place_commands.dfy`: the create, update, delete and toggle-visited handlers, with frame properties.
- `visited_place_queries.dfy` (`VisitedPlaceQueries`) and `aggregates.dfy` (`Aggregates`): the travel statistics. Four counts are proved independent of listing order: dream destinations, visited places, shared photos, and distinct explored countries (trimmed and lower-cased).
- `controllers.dfy` (`Controllers`): the guard code of the two controllers. It covers the rating range check, the upload validation order, the 10 MiB limit, the image content-type whitelist, photo ownership and the thumbnail reply. It also gives the replies of the get-by-id, update, toggle, delete, photo upload and photo/thumbnail endpoints.
- `text.dfy`, `wrappers.dfy`: `char.IsWhiteSpace` white space, trimming, `string.Length` in UTF-16 code units, ASCII case folding, ordinal string order, and `Option` as a stand-in for C# null.

Clocks are parameters (`now`). Nothing here reads a clock, a file or the network.

## Model

| member | source | states |
|---|---|---|
| Entities.Rank | src/WanderlustMemoir.Domain/Entities/Destination.cs:17-22 | The priority enum's integer values: Low is 0, High is 2, Medium lies between. |
| Entities.PriorityOrder | src/WanderlustMemoir.Domain/Entities/Destination.cs:17-22 | Low < Medium < High; distinct priorities have distinct ranks, and any two ranks compare. |
| Entities.NewDestination | src/WanderlustMemoir.Domain/Entities/Destination.cs:7-14 | A new destination is unvisited, of Medium priority, with no photos and no date, description or rating. |
| Entities.NewVisitedPlace | src/WanderlustMemoir.Domain/Entities/VisitedPlace.cs:7-12 | A new visited place has rating 5 (inside 1..5), an empty description and no photos. |
| Text.TrimIsMaximalInfix | src/WanderlustMemoir.Application/Features/VisitedPlaces/Handlers/VisitedPlaceQueryHandlers.cs:83 | `Trim` returns the infix left after removing white space at both ends; it starts and ends with a non-space; it is empty exactly when the input is all white space. |
| Text.Utf16Length | src/WanderlustMemoir.Application/Validators/DestinationValidators.cs:12 | `string.Length` counts UTF-16 code units: between the number of characters and twice it. |
| Text.Utf16LengthExtremes | src/WanderlustMemoir.Application/Validators/DestinationValidators.cs:12 | The UTF-16 length equals the character count iff no character is supplementary, and is twice it iff all are. |
| Text.TrimOfPadded | src/WanderlustMemoir.Application/Features/VisitedPlaces/Handlers/VisitedPlaceQueryHandlers.cs:83 | A white-space character added on each side does not change `Trim()`. |
| Text.TrimLower | src/WanderlustMemoir.Application/Features/VisitedPlaces/Handlers/VisitedPlaceQueryHandlers.cs:83 | `Trim()` and `ToLower()` can be applied in either order. |
| Text.LexLeqTotal | src/WanderlustMemoir.Application/Features/Destinations/Handlers/DestinationQueryHandlers.cs:23 | Any two names compare under the ordinal order standing in for the comparer of `ThenBy(d => d.Name)`. |
| Text.LexLeqTransitive | src/WanderlustMemoir.Application/Features/Destinations/Handlers/DestinationQueryHandlers.cs:23 | The name order is transitive. |
| Text.LexLeqAntisymmetric | src/WanderlustMemoir.Application/Features/Destinations/Handlers/DestinationQueryHandlers.cs:23 | Two names ordered both ways are equal. |
| Store.Find | src/WanderlustMemoir.Infrastructure/Repositories/DestinationRepository.cs:24-29 | `GetByIdAsync` yields null exactly when no row has the id, and the stored row otherwise. |
| Store.Insert | src/WanderlustMemoir.Infrastructure/Repositories/DestinationRepository.cs:31-37 | `CreateAsync` stores the record under an id no row had, keeps every other row, and grows the table by one. |
| Store.Replace | src/WanderlustMemoir.Infrastructure/Repositories/DestinationRepository.cs:39-46 | `UpdateAsync` changes the row under an existing id only; the key set stays the same. |
| Store.Remove | src/WanderlustMemoir.Infrastructure/Repositories/DestinationRepository.cs:48-59 | `DeleteAsync` removes exactly the given id; a missing id changes nothing. |
| Store.ListingInsert | src/WanderlustMemoir.Infrastructure/Repositories/DestinationRepository.cs:17-22 | After `CreateAsync`, `GetAllAsync` lists the old rows plus exactly the new record. |
| Store.CountListing | src/WanderlustMemoir.Infrastructure/Repositories/DestinationRepository.cs:17-22 | Counting over the listing of a valid table counts the stored ids whose row qualifies. |
| Store.ImageOfListing | src/WanderlustMemoir.Infrastructure/Repositories/DestinationRepository.cs:17-22 | The distinct images of the listing of a valid table are exactly the images of the stored rows. |
| Store.ListingContents | src/WanderlustMemoir.Infrastructure/Repositories/DestinationRepository.cs:17-22 | `GetAllAsync` lists every stored row once: the listing's length is the row count and a record is listed iff some id maps to it. |
| Aggregates.Count | src/WanderlustMemoir.Application/Features/VisitedPlaces/Handlers/VisitedPlaceQueryHandlers.cs:81 | `Count(pred)` is never more than the number of elements. |
| Aggregates.CountIsIndexCount | src/WanderlustMemoir.Application/Features/VisitedPlaces/Handlers/VisitedPlaceQueryHandlers.cs:81 | `Count(pred)` equals the number of positions whose element satisfies the predicate. |
| Aggregates.CountExtremes | src/WanderlustMemoir.Application/Features/VisitedPlaces/Handlers/VisitedPlaceQueryHandlers.cs:81 | `Count(pred)` equals the length iff every element satisfies the predicate, and is 0 iff none does. |
| Aggregates.Image | src/WanderlustMemoir.Application/Features/VisitedPlaces/Handlers/VisitedPlaceQueryHandlers.cs:83 | `Select(...).Distinct()`: a value is in the result iff some element maps to it; there are never more values than elements, and none only for an empty input. |
| Aggregates.TotalPermutation | src/WanderlustMemoir.Application/Features/VisitedPlaces/Handlers/VisitedPlaceQueryHandlers.cs:82 | A `Sum` over the records does not depend on their order. |
| Aggregates.CountPermutation | src/WanderlustMemoir.Application/Features/VisitedPlaces/Handlers/VisitedPlaceQueryHandlers.cs:81 | A `Count` over the records does not depend on their order. |
| Aggregates.ImagePermutation | src/WanderlustMemoir.Application/Features/VisitedPlaces/Handlers/VisitedPlaceQueryHandlers.cs:83 | The set of distinct values does not depend on the order of the records. |
| Mapping.ParsePriority | src/WanderlustMemoir.Application/Mappings/MappingProfile.cs:38-47 | The result is High iff the lower-cased word is "high", Low iff it is "low", and Medium for null, "medium" and every unknown word. |
| Mapping.FormatPriority | src/WanderlustMemoir.Application/Mappings/MappingProfile.cs:16 | The printed priority is a non-empty lower-case word among "high", "medium", "low". |
| Mapping.FormatPriorityInjective | src/WanderlustMemoir.Application/Mappings/MappingProfile.cs:16 | Two priorities print the same iff they are equal. |
| Mapping.ParsePriorityIgnoresCase | src/WanderlustMemoir.Application/Mappings/MappingProfile.cs:40 | A word and its lower-cased form parse to the same priority. |
| Mapping.PriorityRoundTrip | src/WanderlustMemoir.Application/Mappings/MappingProfile.cs:38-47 | Parsing the printed form of a priority gives that priority back. |
| Mapping.ParseIsExplicitIffKnown | src/WanderlustMemoir.Application/Mappings/MappingProfile.cs:40-46 | A word parses to the priority that prints as its lower-cased form iff it is one of the three priority words. |
| Mapping.MapCreateDestination | src/WanderlustMemoir.Application/Mappings/MappingProfile.cs:18-19 | Name and country are copied, the priority is parsed, and every other member keeps the new entity's initial value. |
| Mapping.ApplyDestinationUpdate | src/WanderlustMemoir.Application/Mappings/MappingProfile.cs:21-23 | Each non-null member overwrites its field (priority through the parser); each null member leaves its field as it was; date, description, rating, photos and stamps never change. |
| Mapping.MapCreateVisitedPlace | src/WanderlustMemoir.Application/Mappings/MappingProfile.cs:27 | All five request members are copied; photos and stamps keep the new entity's initial values. |
| Mapping.ApplyVisitedPlaceUpdate | src/WanderlustMemoir.Application/Mappings/MappingProfile.cs:28-29 | For requests without a `Photos` member: each non-null member overwrites its field, each null member leaves its field, and photos and stamps do not change. |
| Mapping.EmptyDestinationUpdateIsIdentity | src/WanderlustMemoir.Application/Mappings/MappingProfile.cs:23 | An update with every member null leaves the destination unchanged. |
| Mapping.DestinationUpdateIdempotent | src/WanderlustMemoir.Application/Mappings/MappingProfile.cs:21-23 | Applying the same destination update twice equals applying it once. |
| Mapping.UpdatePriorityNullVersusEmpty | src/WanderlustMemoir.Application/Mappings/MappingProfile.cs:22 | A null priority keeps the stored one; an empty priority word is not null and resets it to Medium. |
| Mapping.EmptyVisitedPlaceUpdateIsIdentity | src/WanderlustMemoir.Application/Mappings/MappingProfile.cs:29 | An update with every member null leaves the visited place unchanged. |
| Mapping.VisitedPlaceUpdateIdempotent | src/WanderlustMemoir.Application/Mappings/MappingProfile.cs:28-29 | Applying the same visited-place update twice equals applying it once. |
| Validators.RequiredText | src/WanderlustMemoir.Application/Validators/DestinationValidators.cs:10-16 | A required name or country passes iff its `string.Length` (UTF-16 code units) is 1..100 and some character is not `char.IsWhiteSpace` white space. |
| Validators.OptionalText | src/WanderlustMemoir.Application/Validators/DestinationValidators.cs:33-39 | An optional name or country passes iff it is null or its UTF-16 length is at most 100 (the empty string passes). |
| Validators.BeValidPriority | src/WanderlustMemoir.Application/Validators/DestinationValidators.cs:22-26 | A priority accepted on create is non-null and parses to the priority whose printed form is its lower-cased text. |
| Validators.CreateDestinationValid | src/WanderlustMemoir.Application/Validators/DestinationValidators.cs:8-20 | A valid create request has name and country of 1..100 UTF-16 code units and a non-null priority. |
| Validators.UpdateDestinationValid | src/WanderlustMemoir.Application/Validators/DestinationValidators.cs:31-44 | A valid update request carries no name and no country longer than 100 UTF-16 code units. |
| Validators.CreateVisitedPlaceValid | src/WanderlustMemoir.Application/Validators/VisitedPlaceValidators.cs:8-27 | A valid create request has a visit date after the default and no later than now, a rating in 1..5, name and country of 1..100 UTF-16 code units and a description of at most 1000. |
| Validators.UpdateVisitedPlaceValid | src/WanderlustMemoir.Application/Validators/VisitedPlaceValidators.cs:32-53 | A valid update request carries each member either null or within its rule: rating in 1..5, visit date not after now, name and country of at most 100 and description of at most 1000 UTF-16 code units. |
| Validators.ValidPriorityParsesExplicitly | src/WanderlustMemoir.Application/Validators/DestinationValidators.cs:22-26 | The create validator accepts a priority word iff the parser maps it explicitly rather than through the Medium fallback. |
| Validators.BlankNameRejected | src/WanderlustMemoir.Application/Validators/DestinationValidators.cs:10-12 | A name made only of white space fails the create validator. |
| Validators.SupplementaryNameTooLong | src/WanderlustMemoir.Application/Validators/DestinationValidators.cs:12 | A name of more than 50 characters outside the Basic Multilingual Plane fails `Length(1, 100)`, since each counts as two code units. |
| Validators.NoBreakSpaceNameRejected | src/WanderlustMemoir.Application/Validators/DestinationValidators.cs:11 | A name consisting of one no-break space U+00A0 fails `NotEmpty()`. |
| Validators.ValidCreateDestinationGivesWellFormedRecord | src/WanderlustMemoir.Application/Validators/DestinationValidators.cs:10-19 | A destination created from a valid request has a non-blank name and country of at most 100 characters, the priority the request named, is unvisited and has no photos. |
| Validators.ValidatedUpdateCanBlankName | src/WanderlustMemoir.Application/Validators/DestinationValidators.cs:33-35 | An update whose name is the empty string passes the update validator, and the mapping then stores the empty name. |
| Validators.UpdatePriorityRule | src/WanderlustMemoir.Application/Validators/DestinationValidators.cs:41-51 | The update validator accepts a null or empty priority, and accepts a non-empty one iff it is a priority word up to case. |
| Validators.ValidCreateVisitedPlaceGivesWellFormedRecord | src/WanderlustMemoir.Application/Validators/VisitedPlaceValidators.cs:10-26 | A visited place created from a valid request has a non-blank name and country, a visit date after the default and not after now, a description of at most 1000 characters and a rating in 1..5. |
| Validators.ValidUpdatePreservesPlaceRules | src/WanderlustMemoir.Application/Validators/VisitedPlaceValidators.cs:34-52 | A validated update keeps a visited place's rating in 1..5, its visit date not after now, its description within 1000 characters and its name within 100. |
| DestinationQueries.KeyLeqTotal | src/WanderlustMemoir.Application/Features/Destinations/Handlers/DestinationQueryHandlers.cs:23 | Any two destinations compare under priority-descending, name-ascending order. |
| DestinationQueries.KeyLeqTransitive | src/WanderlustMemoir.Application/Features/Destinations/Handlers/DestinationQueryHandlers.cs:23 | The listing order is transitive. |
| DestinationQueries.Insert | src/WanderlustMemoir.Application/Features/Destinations/Handlers/DestinationQueryHandlers.cs:23 | Inserting into an ordered listing keeps it ordered and adds exactly one copy of the record. |
| DestinationQueries.InsertKeepsKeyOrder | src/WanderlustMemoir.Application/Features/Destinations/Handlers/DestinationQueryHandlers.cs:23 | An inserted record goes in front of the records already present with the same priority and name. |
| DestinationQueries.SortDestinations | src/WanderlustMemoir.Application/Features/Destinations/Handlers/DestinationQueryHandlers.cs:23 | The sorted listing is ordered and is a permutation of its input. |
| DestinationQueries.SortIsStable | src/WanderlustMemoir.Application/Features/Destinations/Handlers/DestinationQueryHandlers.cs:23 | For every priority and name, the records carrying it keep their input order (the LINQ sort is stable). |
| DestinationQueries.GetAllDestinations | src/WanderlustMemoir.Application/Features/Destinations/Handlers/DestinationQueryHandlers.cs:20-24 | Every stored destination appears exactly once, priorities never increase along the list, and names ascend within a priority. |
| DestinationQueries.GetDestinationById | src/WanderlustMemoir.Application/Features/Destinations/Handlers/DestinationQueryHandlers.cs:38-42 | Null exactly when no destination has the id; otherwise the stored destination. |
| DestinationCommands.CreateDestination | src/WanderlustMemoir.Application/Features/Destinations/Handlers/DestinationCommandHandlers.cs:21-26 | The mapped request is stored under a fresh id; existing destinations and all visited places are untouched; the store stays valid. |
| DestinationCommands.UpdateDestination | src/WanderlustMemoir.Application/Features/Destinations/Handlers/DestinationCommandHandlers.cs:40-51 | Null exactly for a missing id, with nothing changed; otherwise the stored record becomes the mapped update stamped with now, and no other record changes. |
| DestinationCommands.DeleteDestination | src/WanderlustMemoir.Application/Features/Destinations/Handlers/DestinationCommandHandlers.cs:63-71 | True exactly when the id was present; only that id is removed; false changes nothing. |
| DestinationCommands.ToggleDestinationVisited | src/WanderlustMemoir.Application/Features/Destinations/Handlers/DestinationCommandHandlers.cs:85-96 | Null exactly for a missing id, with nothing changed; otherwise only IsVisited is negated and UpdatedAt stamped; the visited-place store is not touched. |
| DestinationCommands.ToggleTwiceRestores | src/WanderlustMemoir.Application/Features/Destinations/Handlers/DestinationCommandHandlers.cs:91-92 | Toggling twice gives back the original destination except for the update stamp, which is the second toggle's; the visited places are untouched. |
| DestinationCommands.CreateThenGet | src/WanderlustMemoir.Application/Features/Destinations/Handlers/DestinationCommandHandlers.cs:21-26 | Looking up the id a create returned yields the created record. |
| DestinationCommands.DeleteThenGet | src/WanderlustMemoir.Application/Features/Destinations/Handlers/DestinationCommandHandlers.cs:63-71 | After a delete the id is no longer found, and a second delete reports false and changes nothing. |
| VisitedPlaceCommands.CreateVisitedPlace | src/WanderlustMemoir.Application/Features/VisitedPlaces/Handlers/VisitedPlaceCommandHandlers.cs:21-26 | The mapped request is stored under a fresh id; other rows and all destinations are untouched. |
| VisitedPlaceCommands.UpdateVisitedPlace | src/WanderlustMemoir.Application/Features/VisitedPlaces/Handlers/VisitedPlaceCommandHandlers.cs:40-51 | Null exactly for a missing id, with nothing changed; otherwise the mapped update stamped with now replaces the record, and no other record changes. |
| VisitedPlaceCommands.DeleteVisitedPlace | src/WanderlustMemoir.Application/Features/VisitedPlaces/Handlers/VisitedPlaceCommandHandlers.cs:63-71 | True exactly when the id was present; only that id is removed. |
| VisitedPlaceCommands.UpdateWithoutRatingKeepsRating | src/WanderlustMemoir.Application/Features/VisitedPlaces/Handlers/VisitedPlaceCommandHandlers.cs:46 | An update that omits the rating (and has no `Photos` member) keeps the stored rating and the photos. |
| VisitedPlaceQueries.GetVisitedPlaceById | src/WanderlustMemoir.Application/Features/VisitedPlaces/Handlers/VisitedPlaceQueryHandlers.cs:40-44 | Null exactly when no visited place has the id; otherwise the stored record. |
| VisitedPlaceQueries.GetAllVisitedPlaces | src/WanderlustMemoir.Application/Features/VisitedPlaces/Handlers/VisitedPlaceQueryHandlers.cs:22-26 | Over a valid store, lists each stored visited place exactly once: the length is the row count and a place is listed iff some id maps to it. |
| VisitedPlaceQueries.ComputeStats | src/WanderlustMemoir.Application/Features/VisitedPlaces/Handlers/VisitedPlaceQueryHandlers.cs:80-83 | VisitedPlaces is the listing length; DreamDestinations is the number of positions holding an unvisited destination (so it equals the length iff none is visited); SharedPhotos is the photo total of both listings; ExploredCountries counts distinct trimmed lower-cased countries, is at most VisitedPlaces and is 0 iff there are none. |
| VisitedPlaceQueries.GetTravelStats | src/WanderlustMemoir.Application/Features/VisitedPlaces/Handlers/VisitedPlaceQueryHandlers.cs:73-92 | Over a valid store: VisitedPlaces equals the number of stored places, DreamDestinations equals the number of stored unvisited destinations, ExploredCountries equals the number of distinct trimmed lower-cased countries of the stored places and is 0 iff none is stored. |
| VisitedPlaceQueries.StatsIgnoreOrder | src/WanderlustMemoir.Application/Features/VisitedPlaces/Handlers/VisitedPlaceQueryHandlers.cs:80-83 | The statistics do not depend on the order in which the repositories list their records. |
| VisitedPlaceQueries.CountryCaseAndSpaceCountOnce | src/WanderlustMemoir.Application/Features/VisitedPlaces/Handlers/VisitedPlaceQueryHandlers.cs:83 | Any country and a lower-cased copy padded with one white-space character on each side count as one explored country ("France" and " france "). |
| VisitedPlaceQueries.ToggleShiftsDreamCount | src/WanderlustMemoir.Application/Features/VisitedPlaces/Handlers/VisitedPlaceQueryHandlers.cs:81 | Toggling a destination moves it between dream and visited: the dream count changes by one in the matching direction and the other counts stay. |
| VisitedPlaceQueries.CreateAddsVisitedPlace | src/WanderlustMemoir.Application/Features/VisitedPlaces/Handlers/VisitedPlaceQueryHandlers.cs:80-83 | Storing a visited place adds one to VisitedPlaces and its photo count to SharedPhotos, leaves DreamDestinations, and makes ExploredCountries at least 1. |
| VisitedPlaceQueries.CountStoredDreams | src/WanderlustMemoir.Application/Features/VisitedPlaces/Handlers/VisitedPlaceQueryHandlers.cs:77-81 | Counting unvisited destinations over the listing of a valid store gives the number of stored unvisited destinations. |
| VisitedPlaceQueries.ExampleStats | src/WanderlustMemoir.Application/Features/VisitedPlaces/Handlers/VisitedPlaceQueryHandlers.cs:80-83 | Two places (France, USA) with 2 and 1 photos and three destinations with one unvisited and 2 photos in all give stats (1, 2, 5, 2). |
| Controllers.IsValidImageType | src/WanderlustMemoir.API/Controllers/DestinationsController.cs:287-299 | A content type is accepted iff it matches one of image/jpeg, image/jpg, image/png, image/gif, image/webp letter by letter, ignoring case. |
| Controllers.ImageTypeIgnoresCase | src/WanderlustMemoir.API/Controllers/VisitedPlacesController.cs:312-324 | Two content types that differ only in letter case are accepted or refused together. |
| Controllers.UpperCasePngAccepted | src/WanderlustMemoir.API/Controllers/DestinationsController.cs:298 | "IMAGE/PNG" is accepted. |
| Controllers.BmpAndSvgRefused | src/WanderlustMemoir.API/Controllers/DestinationsController.cs:289-298 | "image/bmp" and "image/svg+xml" are refused. |
| Controllers.PhotoProblem | src/WanderlustMemoir.API/Controllers/DestinationsController.cs:204-208 | A photo has no problem iff it is at most 10 MiB and of an accepted type; an oversized photo is reported as too large even when its type is also wrong. |
| Controllers.FirstRejected | src/WanderlustMemoir.API/Controllers/DestinationsController.cs:202-209 | Every photo before the returned position is acceptable and the photo at it is not (or the position is the list's end). |
| Controllers.FirstProblem | src/WanderlustMemoir.API/Controllers/VisitedPlacesController.cs:198-205 | The loop reports nothing iff every photo is acceptable; otherwise it reports the problem of the first unacceptable photo. |
| Controllers.FirstProblemAppend | src/WanderlustMemoir.API/Controllers/VisitedPlacesController.cs:198-205 | A problem in a prefix is the one reported whatever follows; with a clean prefix, the suffix decides. |
| Controllers.UploadGuard | src/WanderlustMemoir.API/Controllers/DestinationsController.cs:193-211 | An absent or empty list is BadRequest before the owner check; a missing owner is NotFound before any photo check; a BadRequest for a photo names the first unacceptable one; Ok, the only case that calls the upload service, holds iff all photos pass. |
| Controllers.OversizedPhotoRefused | src/WanderlustMemoir.API/Controllers/DestinationsController.cs:204-205 | An acceptable photo followed by one of 10 MiB + 1 bytes gives BadRequest naming the second photo. |
| Controllers.ExactLimitAccepted | src/WanderlustMemoir.API/Controllers/DestinationsController.cs:204 | A photo of exactly 10 MiB of an accepted type is let through. |
| Controllers.UploadDestinationPhotos | src/WanderlustMemoir.API/Controllers/DestinationsController.cs:189-211 | NotFound iff the list is non-empty and the destination is missing; Ok iff the list is non-empty, the destination exists and every photo passes. |
| Controllers.UploadVisitedPlacePhotos | src/WanderlustMemoir.API/Controllers/VisitedPlacesController.cs:184-208 | NotFound iff the list is non-empty and the visited place is missing; Ok iff the list is non-empty, the place exists and every photo passes. |
| Controllers.UploadGuardsAgree | src/WanderlustMemoir.API/Controllers/VisitedPlacesController.cs:189-208 | Both controllers decide an upload identically when the owner exists in both stores or in neither. |
| Controllers.CheckRating | src/WanderlustMemoir.API/Controllers/DestinationsController.cs:166-167 | Ok with the same rating iff it lies in 1..5; otherwise BadRequest, and the service is not called. |
| Controllers.RatingGuardMatchesValidator | src/WanderlustMemoir.API/Controllers/VisitedPlacesController.cs:161-162 | The controller's rating guard admits exactly the ratings the visited-place validator admits. |
| Controllers.ServePhoto | src/WanderlustMemoir.API/Controllers/DestinationsController.cs:237-246 | NotFound for a missing photo and for a photo owned by another record; otherwise the photo's id, content type and file name. |
| Controllers.ServeThumbnail | src/WanderlustMemoir.API/Controllers/VisitedPlacesController.cs:288-299 | Served iff the photo exists and belongs to the route's record; the reply has the photo's id and content type and the name "thumb_" + file name. |
| Controllers.ThumbnailMirrorsPhoto | src/WanderlustMemoir.API/Controllers/DestinationsController.cs:265-274 | The thumbnail is refused exactly when the photo is, for the same reason, and otherwise differs from it only by the "thumb_" prefix. |
| Controllers.GetDestinationEndpoint | src/WanderlustMemoir.API/Controllers/DestinationsController.cs:46-51 | NotFound exactly for a missing id; otherwise Ok with the stored destination. |
| Controllers.GetVisitedPlaceEndpoint | src/WanderlustMemoir.API/Controllers/VisitedPlacesController.cs:65-70 | NotFound exactly for a missing id; otherwise Ok with the stored visited place. |
| Controllers.UpdateDestinationEndpoint | src/WanderlustMemoir.API/Controllers/DestinationsController.cs:92-100 | An invalid model is BadRequest with the store untouched; otherwise NotFound exactly for a missing id; a non-Ok reply never changes the store. |
| Controllers.UpdateVisitedPlaceEndpoint | src/WanderlustMemoir.API/Controllers/VisitedPlacesController.cs:111-119 | An invalid model is BadRequest with the store untouched; otherwise NotFound exactly for a missing id; a non-Ok reply never changes the store. |
| Controllers.ToggleEndpoint | src/WanderlustMemoir.API/Controllers/DestinationsController.cs:142-147 | NotFound exactly for a missing id, with the store untouched; Ok carries the destination with its visited flag negated. |
| Controllers.DeleteDestinationEndpoint | src/WanderlustMemoir.API/Controllers/DestinationsController.cs:118-123 | NoContent iff the destination existed, NotFound otherwise; afterwards the id is absent and the visited places are untouched. |
| Controllers.DeleteVisitedPlaceEndpoint | src/WanderlustMemoir.API/Controllers/VisitedPlacesController.cs:137-142 | NoContent iff the visited place existed, NotFound otherwise; afterwards the id is absent and the destinations are untouched. |
| Controllers.SecondDeleteIsNotFound | src/WanderlustMemoir.API/Controllers/VisitedPlacesController.cs:137-142 | Deleting the same visited place twice: the second delete is NotFound and changes nothing. |

## Left out

- Destination and visited-place synchronisation, and the rating-to-description generator. The shown toggle handler only negates `IsVisited` and stamps `UpdatedAt`, and it reads no visited-place repository, so that is all the model does.
- The photo lookup services `GetDestinationPhotoByIdAsync` and `GetPhotoByIdAsync`: `ServePhoto` and `ServeThumbnail` take the lookup result as the parameter `found`, so the ownership check is modelled but the lookup is not.
- The photo upload, photo delete and rating update services. Their handlers are not part of this model. The controllers are modelled up to the service call: `Ok(x)` means "the service is called with `x`", and any other reply means it is not called.
- The 500 replies, exceptions, and the service's null result after a successful upload guard.
- Raw image bytes, `IFormFile` streaming and `File(...)` results. A file reply is represented by the photo id, content type and file name.
- Entity Framework, the database schema and its column lengths (200/100), the seed data, dependency injection and HTTP routing.
- `BaseEntity.cs` is not part of this model. Its `Id`, `CreatedAt` and `UpdatedAt` are assumed: `UpdatedAt` is nullable and `CreatedAt` is set by the repository.
- Culture-sensitive `ToLower` and string comparison are modelled as ASCII case folding and ordinal order.
- Strings are sequences of Unicode scalar values, so a .NET string holding an unpaired surrogate has no counterpart here.
- `DateTime` is modelled as a natural number of ticks, with `default(DateTime)` as 0.
- Null photo collections cannot occur here: the entity initialisers make them empty lists, so `Photos?.Count ?? 0` is the list length.
- Mapping.ApplyVisitedPlaceUpdate: the update request's `Photos` member is not modelled. AutoMapper maps it by name onto `VisitedPlace.Photos`, skipping only null. A non-null empty list would clear the stored photos, which Entity Framework then deletes by cascade. A non-empty list throws, since no map from the photo request type to `Photo` is configured. The contract, and `VisitedPlaceCommands.UpdateWithoutRatingKeepsRating`, hold for requests without that member.
- Mapping.MapCreateVisitedPlace: the create request's `Photos` member is not modelled. An empty list gives the same empty photo list as the initialiser; a non-empty one throws for the same missing map.
- The string `Date` member of the visited-place requests has no counterpart on the entity, so AutoMapper drops it. It is not modelled.
- The create, list-all and statistics endpoints are not modelled as controller replies (`BadRequest` on an invalid model, `CreatedAtAction`, `Ok`). Their handlers are modelled: `CreateDestination`, `CreateVisitedPlace`, `GetAllDestinations`, `GetAllVisitedPlaces` and `GetTravelStats`.
- The DTO projection after each handler (`Map<DestinationDto>`) is left out. Replies carry the entity itself, with the priority printed by `Mapping.FormatPriority`.
- Whether ASP.NET runs the validators: the shown dependency registration adds no FluentValidation, so endpoints are not assumed to run them. `ModelState.IsValid` is the parameter `modelValid` of the update endpoints, and the validators are modelled on their own.
- A null content type, on which `IsValidImageType` throws.
- Ratings are not a store invariant. The range 1..5 is enforced only by the validators and the rating guard.
- Controllers.ToggleEndpoint: the controller passes a visit date to a service method the shown service interface does not declare. The endpoint is modelled with the shown one-argument service, which forwards to the toggle handler.
- Controllers.FoundOrNotFound, Controllers.DeleteReply: the NotFound reply does not keep the message text, only a reason.
- VisitedPlaceQueries.GetTravelStats: states its counts only for a valid store, since its listing matches the stored rows only there. SharedPhotos is stated as a sum over the listings (in `ComputeStats`) and through `CreateAddsVisitedPlace` and `ToggleShiftsDreamCount`, not as a sum over stored ids.
- VisitedPlaceQueries.ComputeStats: the counts and the photo sum are unbounded naturals. C# computes them as 32-bit `int`: LINQ `Count` and `Sum` throw past `int.MaxValue`, and the unchecked `+` of the two sums wraps. Neither overflow is modelled.
- Store.Listing: `GetAllAsync` has no `OrderBy`, so its order is whatever the database returns. Ascending id order is the model's choice, and it is the tie order that `DestinationQueries.SortIsStable` keeps.
