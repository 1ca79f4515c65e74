# Places store

A model of the core of the places API, a Laravel application that keeps a table of
places (name, slug, city, state). The model has three parts:

- the place service: `list`, `create`, `update` and `delete` over the table of
  places. This covers slug defaulting, merging only the supplied keys, and the
  case-insensitive name filter with ordering by name and the first page of results;
- the create-request rules;
- the update-request rules.

Modules, one per concern:

- `Wrappers`: `Option` and `Result`.
- `Str`: the slug function. It lower-cases ASCII letters and turns each run of other
  characters into a single `-`, with no `-` at either end. The module also holds its
  properties and the examples "Central Park" → "central-park", "New Name" → "new-name"
  and "New Park" → "new-park".
- `Models`: the place record (the fillable attributes `name`, `slug`, `city`,
  `state`), request input as a map from field to value, and the class `PlaceTable`.
  - The input values are string, null or any other JSON value.
  - `PlaceTable` stands in for the `places` table. It holds a map from id to record and
    the next auto-increment id. It keeps a unique index on `name` and one on `slug`,
    where a null slug never clashes.
  - A write that would break an index fails with `Err(UniqueViolation)` and changes
    nothing.
- `Validation`: the part of Laravel's validator the two requests use:
  - `sometimes` skips an absent key;
  - `nullable` skips null;
  - a rule other than `required` is skipped on an absent key and on a string that is
    empty or only whitespace;
  - `required` rejects null and such strings;
  - `unique` may ignore one id.
- `StorePlaceRequest` and `UpdatePlaceRequest`: the two rule tables. Each has a
  function giving the set of fields with an error, characterised field by field.
- `Listing`: the parts of the list query:
  - substring search;
  - PHP truthiness of the filter;
  - the rows that pass the filter;
  - lexicographic order on names;
  - an insertion sort by name.
- `PlaceService`:
  - `Create`, `Update` and `Delete` are methods on a `PlaceTable`. Like the PHP code,
    they rewrite the input map and then write through the table.
  - `List` is a function of the table. It returns the first page: a page size of 0
    falls back to 15, and a negative page size puts every match on the page.
  - The module also holds the lemmas that connect the services to the two requests.

The service is called with input that has already passed its request:

- `Create` requires a string `name`, `city` and `state`, and a slug that is absent,
  null or a string.
- `Update` requires only strings, or a null slug.

`StoreAcceptedIsShaped` and `UpdateAcceptedIsShaped` prove that every accepted input has
that shape.

Neither request checks a slug that the service derives from the name, nor a supplied
slug that is blank. So an accepted create or update can still collide with another
row's slug; the database index then rejects it. `AcceptedCreateConflicts` and
`AcceptedUpdateConflicts` state exactly when this happens. `DerivedSlugCollides` states it
for any fresh name, and `DerivedSlugCollision` gives a concrete case: creating "Central Park" next to a place that already holds
"central-park". The requests reject a duplicate name, or a duplicate slug that is supplied,
as a validation error. A derived slug is checked only by the table's unique index, so that
collision surfaces as a database error rather than a validation error. The model returns
`Err(UniqueViolation)` for it.

## Model

| member | source | states |
|---|---|---|
| Str.SlugifyIsSlug | apiPlace/app/Services/PlaceService.php:31-33 | a derived slug holds only lower-case letters, digits and single inner hyphens, never one at either end |
| Str.SlugifyKeepsAlnums | apiPlace/app/Services/PlaceService.php:31-33 | a derived slug spells exactly the name's letters and digits, lower-cased and in order |
| Str.SlugifyFixesSlugs | apiPlace/app/Services/PlaceService.php:41-43 | a string that already is a slug is its own slug |
| Str.SlugifyIdempotent | apiPlace/app/Services/PlaceService.php:41-43 | deriving a slug from a slug changes nothing |
| Str.SlugifyJoin | apiPlace/app/Services/PlaceService.php:31-33 | any run of separators, however long, between two parts that hold letters or digits becomes exactly one hyphen between the two parts' slugs |
| Str.SlugifyDropsLeading | apiPlace/app/Services/PlaceService.php:31-33 | separators before the first letter or digit leave no trace in the slug |
| Str.SlugifyDropsTrailing | apiPlace/app/Services/PlaceService.php:31-33 | separators after the last letter or digit leave no trace in the slug |
| Str.SlugifyTwoWords | apiPlace/app/Services/PlaceService.php:31-33 | two words of letters and digits with one separator between them give the two lower-cased words joined by a single hyphen |
| Str.SlugifyCentralPark | apiPlace/app/Services/PlaceService.php:31-33 | "Central Park" gives "central-park" |
| Str.SlugifyNewName | apiPlace/app/Services/PlaceService.php:41-43 | "New Name" gives "new-name" |
| Str.SlugifyNewPark | apiPlace/app/Services/PlaceService.php:41-43 | "New Park" gives "new-park" |
| Models.WriteKeepsUniqueIndexes | apiPlace/app/Services/PlaceService.php:35 | writing a record that clashes with no other row keeps names unique and non-null slugs unique |
| Models.PlaceTable.Insert | apiPlace/app/Services/PlaceService.php:35 | an insert fails exactly when the name or the non-null slug is already taken, and then changes nothing; otherwise the record goes in under a fresh id and every other row is unchanged |
| Models.PlaceTable.Save | apiPlace/app/Services/PlaceService.php:45 | a save fails exactly when another row has the name or the non-null slug; otherwise only row `id` changes |
| Models.PlaceTable.Remove | apiPlace/app/Services/PlaceService.php:52 | a delete returns true and removes exactly row `id` |
| Validation.RequiredUniquePasses | apiPlace/app/Http/Requests/StorePlaceRequest.php:17 | `required, string, max:n, unique` passes if and only if the value is a non-blank string of at most n characters that no counted row holds |
| Validation.RequiredPasses | apiPlace/app/Http/Requests/StorePlaceRequest.php:19-20 | `required, string, max:n` passes if and only if the value is a non-blank string of at most n characters |
| Validation.NullableUniquePasses | apiPlace/app/Http/Requests/StorePlaceRequest.php:18 | `nullable, string, max:n, unique` passes if and only if the value is absent, null, blank, or a string of at most n characters no counted row holds |
| Validation.SometimesPasses | apiPlace/app/Http/Requests/UpdatePlaceRequest.php:20-34 | `sometimes` in front of rules means: no check when the key is absent, otherwise exactly the same check |
| StorePlaceRequest.Errors | apiPlace/app/Http/Requests/StorePlaceRequest.php:14-22 | name has an error if and only if it is not a non-blank string of at most 255 characters that no row has; city and state likewise, without uniqueness; slug has an error if and only if it is a non-blank value that is not a string of at most 255 characters no row has |
| StorePlaceRequest.EmptyBodyRejected | apiPlace/app/Http/Requests/StorePlaceRequest.php:17-20 | an empty body gets an error on name, city and state, and on nothing else |
| StorePlaceRequest.DuplicateNameRejected | apiPlace/app/Http/Requests/StorePlaceRequest.php:17 | a name some row already has gets an error on name |
| StorePlaceRequest.FreshPlaceAccepted | apiPlace/app/Http/Requests/StorePlaceRequest.php:16-21 | a fresh non-blank name with a non-blank city and state, all within 255 characters and without a slug, is accepted |
| UpdatePlaceRequest.Errors | apiPlace/app/Http/Requests/UpdatePlaceRequest.php:15-36 | name, city and state get an error only when present and not a non-blank string of at most 255 characters, with a present name also clashing only with other rows; slug as for a create but ignoring the place's own row |
| UpdatePlaceRequest.NameRules | apiPlace/app/Http/Requests/UpdatePlaceRequest.php:20-26 | the name rules pass if and only if an absent name, or a non-blank string of at most 255 characters that no other row has |
| UpdatePlaceRequest.PlainRules | apiPlace/app/Http/Requests/UpdatePlaceRequest.php:33-34 | the city and state rules pass if and only if the key is absent or holds a non-blank string of at most 255 characters |
| UpdatePlaceRequest.CityOnlyAccepted | apiPlace/app/Http/Requests/UpdatePlaceRequest.php:33 | a body with only a valid city is accepted |
| UpdatePlaceRequest.OtherNameRejected | apiPlace/app/Http/Requests/UpdatePlaceRequest.php:25 | the name of a different row is rejected |
| UpdatePlaceRequest.OwnValuesAccepted | apiPlace/app/Http/Requests/UpdatePlaceRequest.php:17-31 | in a table with unique indexes, the place's own name and own slug are not counted as taken |
| Listing.ContainsIff | apiPlace/app/Services/PlaceService.php:18-20 | the substring test holds if and only if the filter occurs at some position of the name (`LIKE '%f%'`) |
| Listing.MatchingRows | apiPlace/app/Services/PlaceService.php:13-22 | every enumerated row is a stored row whose name passes the filter |
| Listing.MatchingRowsIds | apiPlace/app/Services/PlaceService.php:13-22 | the enumeration lists exactly the ids of the matching rows |
| Listing.MatchingRowsCount | apiPlace/app/Services/PlaceService.php:13-22 | the enumeration lists each matching row once |
| Listing.LexLeTotal | apiPlace/app/Services/PlaceService.php:24 | any two names are ordered one way or the other |
| Listing.LexLeTransitive | apiPlace/app/Services/PlaceService.php:24 | the name order is transitive |
| Listing.InsertByName | apiPlace/app/Services/PlaceService.php:24 | inserting into a name-ordered sequence keeps it ordered and adds exactly that row |
| Listing.SortByName | apiPlace/app/Services/PlaceService.php:24 | the result is ordered by name and is a permutation of the input |
| Listing.SortedPairwise | apiPlace/app/Services/PlaceService.php:24 | in an ordered sequence every name is at most every later name |
| Listing.DistinctIds | apiPlace/app/Services/PlaceService.php:24-25 | a sequence of rows with as many ids as rows holds no id twice |
| Listing.SortedPrefix | apiPlace/app/Services/PlaceService.php:24-25 | the first n rows of a name-ordered sequence are name-ordered |
| PlaceService.CreatedSlug | apiPlace/app/Services/PlaceService.php:31-35 | a create always stores a slug: a supplied one verbatim, otherwise the slug of the name, which is URL-safe and spells the name's letters and digits |
| PlaceService.Create | apiPlace/app/Services/PlaceService.php:28-36 | fails exactly when the name or the resulting slug is taken, changing nothing; otherwise inserts exactly one record, with slug defaulting, under an id not in the table, and leaves every other record unchanged |
| PlaceService.UpdateKeepsUnsupplied | apiPlace/app/Services/PlaceService.php:41-47 | absent keys keep their values; the slug is kept unless a name or a slug is supplied; a supplied slug wins; a name without a slug brings exactly the slug of that name, which is URL-safe |
| PlaceService.RenameRederivesSlug | apiPlace/app/Services/PlaceService.php:41-43 | renaming without a slug gives the slug of the new name and keeps city and state |
| PlaceService.RenameWithSlugKeepsIt | apiPlace/app/Services/PlaceService.php:41-45 | renaming with a slug stores that slug verbatim |
| PlaceService.UpdateIdempotent | apiPlace/app/Services/PlaceService.php:41-45 | applying the same update twice gives the same record as once |
| PlaceService.EmptyUpdateKeepsRecord | apiPlace/app/Services/PlaceService.php:45 | an update with no keys leaves the record unchanged |
| PlaceService.Update | apiPlace/app/Services/PlaceService.php:38-48 | fails exactly when another row has the new name or slug, changing nothing; otherwise only row `id` changes, to the merged record, which is also what it returns; no id is allocated |
| PlaceService.Delete | apiPlace/app/Services/PlaceService.php:50-53 | returns true and removes exactly the given id; every other record is unchanged |
| PlaceService.CreateThenDelete | apiPlace/app/Services/PlaceService.php:28-53 | deleting what a create inserted gives back the table's earlier rows |
| PlaceService.RenameOnlyPlace | apiPlace/app/Services/PlaceService.php:38-48 | renaming the only place of a table always succeeds and rederives or keeps the slug |
| PlaceService.RenameScenario | apiPlace/app/Services/PlaceService.php:28-53 | on an empty table, create, rename without a slug, and rename with a slug give the slug of the name, the slug of the new name and the supplied slug, with city and state kept |
| PlaceService.List | apiPlace/app/Services/PlaceService.php:11-25 | total is the number of places whose lower-cased name contains the lower-cased filter, or all places for a null, "" or "0" filter; the page holds min(perPage, total) of them, 15 by default, ordered by name, no place twice, every one a stored match; every match left off sorts after every row on the page |
| PlaceService.QueryPage | apiPlace/app/Services/PlaceService.php:13-25 | the same properties for the query over the table's map |
| PlaceService.QueryDistinct | apiPlace/app/Services/PlaceService.php:24-25 | no place appears twice on the page |
| PlaceService.QuerySorted | apiPlace/app/Services/PlaceService.php:24-25 | the rows on the page are in name order |
| PlaceService.QueryItems | apiPlace/app/Services/PlaceService.php:13-25 | each row on the page is a stored row whose name passes the filter |
| PlaceService.QueryLeftOff | apiPlace/app/Services/PlaceService.php:24-25 | every matching row left off the page sorts after every row on it |
| PlaceService.MatchCount | apiPlace/app/Services/PlaceService.php:15-22 | the query yields as many rows as there are matching places, and all of them without a filter |
| PlaceService.SortedRowsMatch | apiPlace/app/Services/PlaceService.php:24 | sorting keeps only stored rows that match |
| PlaceService.FirstPage | apiPlace/app/Services/PlaceService.php:24-25 | every matching row left off the first page sorts after every row on it |
| PlaceService.LeftOffSortsAfter | apiPlace/app/Services/PlaceService.php:24-25 | a row beyond the first page of an ordered sequence sorts after each row on the page |
| PlaceService.DefaultPageHoldsFifteen | apiPlace/app/Services/PlaceService.php:11 | twenty places with the default page size give fifteen items and a total of twenty |
| PlaceService.PageOfFive | apiPlace/app/Services/PlaceService.php:24-25 | twenty places with a page size of 5 give five items |
| PlaceService.StoreAcceptedIsShaped | apiPlace/app/Http/Requests/StorePlaceRequest.php:16-21 | input the create request accepts has string name, city and state and an absent, null or string slug |
| PlaceService.UpdateAcceptedIsShaped | apiPlace/app/Http/Requests/UpdatePlaceRequest.php:19-35 | input the update request accepts holds only strings and possibly a null slug |
| PlaceService.AcceptedCreateConflicts | apiPlace/app/Http/Requests/StorePlaceRequest.php:17-18 | after the create request passes, the insert fails if and only if the slug was derived or blank and another row has it |
| PlaceService.AcceptedUpdateConflicts | apiPlace/app/Http/Requests/UpdatePlaceRequest.php:25-31 | after the update request passes on a table with unique indexes, the save fails if and only if the new slug was derived or blank and another row has it |
| PlaceService.DerivedSlugCollides | apiPlace/app/Services/PlaceService.php:31-35 | a fresh, valid name without a slug passes the create request, yet the insert fails when another place holds the slug derived from that name |
| PlaceService.DerivedSlugCollision | apiPlace/app/Services/PlaceService.php:31-35 | "Central Park" passes the create request next to a place named "Central Park (north)" that holds "central-park", and the insert then fails |

## Left out

- The HTTP layer:
  - routing, controllers, JSON shaping, status codes and error messages;
  - route-model binding, so a missing place is a precondition, not a 404;
  - the `(int)` cast of `per_page`;
  - the global middleware that trims strings and turns empty strings into null.
  The model applies the rules to the raw input.
- The database-driver branch of `list` (ILIKE or LOWER … LIKE). The model has one
  case-insensitive substring match on ASCII letters. The filter must not contain `%`
  or `_`, which the query does not escape.
- Database collation for `ORDER BY name`. The model uses plain code-point order.
  Equal names cannot occur, so the order of ties does not matter.
- Pages after the first, and the paginator's links and metadata.
- Laravel's full `Str::slug`: transliteration, '@' → "at", non-ASCII case folding, and
  deleting punctuation other than `-` and `_` instead of turning it into a `-`. For
  example, Laravel turns "1.5 Mile Park" into "15-mile-park", while the model gives
  "1-5-mile-park". The model's slug function is the ASCII rule described above.
- Timestamps (`created_at`, `updated_at`): they depend on the clock.
- `fresh()` re-reading the row is modelled as the stored record.
- Concurrency: races between update and delete, and unique-index enforcement across
  concurrent writes.
- Factories, seeders and the dependency-injection binding.
- PlaceService.Create: requires input already shaped by the create request instead of
  failing on a missing name, city or state; `StoreAcceptedIsShaped` proves that
  accepted input has this shape.
- PlaceService.Update: requires input already shaped by the update request, and a place
  that exists; `UpdateAcceptedIsShaped` proves that accepted input has this shape.
