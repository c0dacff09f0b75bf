# Bookmark/user REST API — pagination core in Dafny

This project models the one piece of real logic in a small PHP/Symfony REST
API for bookmarks and users: the **collection pagination rule**. The bookmark
handler `BookmarkController::collection` and the user handler
`UserController::index` both follow it. It also models the store queries the
rule relies on, the empty-field guard and roles defaulting in the user
`create`/`update` handlers, and `UserDto::setDefaultRoles`.

The rule takes the row count, a 1-based `page`, a page size `step` and
whether a last-page route was taken. From these it computes `current`, the
1-based rank of the first row to show:

- `(page - 1) * step + 1` on an explicit page;
- `max(1, count - step)` on a last-page route.

It fetches the window at offset `current - 1` with limit `step` from the
id-descending store. It then sets the `Server`, `Link` (`last`, `first`),
`X-Total-Count`, `X-Current-Page` (`intdiv(current, step) + 1`),
`X-Per-Page` and `X-Page-Size` headers. Past the end (`current > count`) it
answers 204 "Max page number reached". Otherwise it answers 206 with the
rows' locations and the total count, plus a `next` link to
`intdiv(current, step) + 2` unless a last-page route was taken.

Modules, one per source file or concept:

- `Wrappers`: `Option`, `Result`, `Min`, `Max`.
- `Decimal`: PHP's integer-to-string conversion, with its inverse and a
  round-trip proof.
- `Http`: responses, with headers as an ordered list of (name, value)
  pairs. `Values(hs, name)` reads back every value of a name, in order.
- `Repository`: the store as a sequence of `Entity(id, fields)`, newest
  first, with `FindNextX`, `CountAll` and `FindLastEntry`.
- `Pagination`: the shared rule `Collection` and the properties proved
  about it.
- `BookmarkController` and `UserController`: the handlers as instances of the
  rule. Each uses its own route names for the last-page test. `create` and
  `update` are in `UserController` as well.
- `Agreement`: the two collection handlers agree.
- `UserDto`: the roles default.

Behaviour of the code as written that the proofs make explicit:

- The headers are set before the past-the-end test, so 204 responses carry
  them too.
- `X-Current-Page` and `next` round-trip to the requested page only when
  `step >= 2`. With `step = 1` both are one too high.
- `step = 0` is admitted by the `\d+` routes and reaches `intdiv(current, 0)`.
  The model makes this an explicit `DivisionByZero` outcome.
- `page = 0` is admitted too. Then `current = 1 - step <= 0`, which is never
  past the end, so the handler heads for a 206 and asks the store for rows
  from offset `-step`.
- The last-page formula is not aligned to `step`. Whenever the collection
  holds more than `step` rows, its window is
  `rows[count - step - 1 .. count - 1]`. That window holds a full page but
  never the oldest row.

## Model

| member | source | states |
|---|---|---|
| `Decimal.RoundTrip` | src/Controller/BookmarkController.php:210 | the decimal string an id is interpolated as reads back as that id, so distinct ids give distinct strings |
| `Decimal.FromNat` | src/Controller/BookmarkController.php:210 | an id's string form is a non-empty run of digits with no leading zero |
| `Repository.FindNextX` | src/Repository/BookmarkRepository.php:52-61 | a negative first result is refused; otherwise at most `maxResults` rows, exactly the contiguous rows from `firstResult` on (none when `firstResult >= count`), still in strictly descending id order |
| `Repository.FindFirstPage` | src/Repository/BookmarkRepository.php:52 | with the defaults (first result 0, 10 rows) the query returns the `min(10, count)` newest rows |
| `Repository.WindowsTile` | src/Repository/BookmarkRepository.php:52-61 | consecutive windows tile the table: a window of `a + b` rows is the window of `a` rows followed by the next `b` |
| `Repository.CountAll` | src/Repository/BookmarkRepository.php:63-70 | the count equals the number of distinct keys stored |
| `Repository.FindLastEntry` | src/Repository/BookmarkRepository.php:42-50 | null exactly when the table is empty; otherwise a stored row with the largest id, the sole row of `findNextX(0, 1)` |
| `Pagination.RequestFor` | src/Controller/BookmarkController.php:172-182 | a route without a page uses page 1, a route without a step uses step 10, otherwise the route's parameters |
| `Pagination.IntDiv` | src/Controller/BookmarkController.php:216 | PHP's `intdiv` truncates toward zero: for a non-negative dividend the quotient is the floor of the exact quotient, for a negative one it is the ceiling (never positive) |
| `Pagination.Current` | src/Controller/BookmarkController.php:189-193 | `current` is at least 1 on every request except page 0 with a non-zero step, where it is `1 - step` |
| `Pagination.CurrentMonotone` | src/Controller/BookmarkController.php:192 | explicit pages are consecutive blocks of `step` ranks starting at rank 1, so `current` grows with the page number |
| `Pagination.CurrentPageOfExplicitPage` | src/Controller/BookmarkController.php:192-216 | for page `p >= 1`, `intdiv(current, step) + 1` is `p` when `step >= 2` and `p + 1` when `step = 1` |
| `Pagination.Window` | src/Controller/BookmarkController.php:200 | the fetched window is offset `current - 1`, limit `step`, and holds `min(step, count - current + 1)` rows, or none past the end |
| `Pagination.Respond` | src/Controller/BookmarkController.php:213-232 | once the window is fetched, the status is 204 exactly when `current > count` and 206 otherwise, and only a 206 has a body |
| `Pagination.Collection` | src/Controller/BookmarkController.php:177-235 | a zero step ends in a division by zero; page 0 with a non-zero step ends in the store refusing offset `-step`; every other request is answered 204 exactly when `current > count` and 206 otherwise, with a body only on 206 |
| `Pagination.RespondHeaders` | src/Controller/BookmarkController.php:213-218 | the paging headers are each set once with the count, current page, step and window size, whatever follows them |
| `Pagination.RespondLinks` | src/Controller/BookmarkController.php:213-229 | `Link` holds `last` then `first`, and a `next` only on a 206 from a route other than a last-page route |
| `Pagination.CollectionHeaders` | src/Controller/BookmarkController.php:213-224 | on 204 and 206 alike: `X-Total-Count` is the count, `X-Current-Page` is `intdiv(current, step) + 1`, `X-Per-Page` is the step and `X-Page-Size` is the number of fetched rows |
| `Pagination.CollectionLinks` | src/Controller/BookmarkController.php:213-229 | `Link` holds `last` and `first`, then `next` to page `intdiv(current, step) + 2` exactly on a 206 from a route other than a last-page route |
| `Pagination.CollectionBody` | src/Controller/BookmarkController.php:200-232 | a 206 lists `base/id` for each fetched row, in fetch order, which are the rows from rank `current` on, at least one of them, with the total count; a 204 has no body and fetched nothing |
| `Pagination.ExplicitPageRoundTrip` | src/Controller/BookmarkController.php:189-229 | an explicit page `p >= 1` shows `X-Current-Page: p` and `next` to `p + 1` when `step >= 2`; with `step = 1` both are one too high |
| `Pagination.EmptyCollectionNoContent` | src/Controller/BookmarkController.php:220-224 | an empty collection answers 204 with `X-Page-Size: 0` to every answered request, last-page routes included |
| `Pagination.PageZeroNegativeOffset` | src/Controller/BookmarkController.php:192-200 | page 0 gives `current = 1 - step <= 0`, which is not past the end, and the fetch is asked for offset `-step`, which the store refuses |
| `Pagination.LastPage` | src/Controller/BookmarkController.php:189-229 | on a last-page route a non-empty collection answers 206 with `min(step, count)` locations and no `next` link |
| `Pagination.LastPageWindow` | src/Controller/BookmarkController.php:190-200 | with more than `step` rows, the last-page window is rows `count - step - 1` up to but excluding `count - 1` |
| `Pagination.LastPageOmitsOldest` | src/Controller/BookmarkController.php:190-211 | with more than `step` rows, the oldest row's location is not on the last page |
| `Pagination.ThirdOfTwentyFive` | src/Controller/BookmarkController.php:187-234 | with 25 rows and step 10, page 3 answers 206 with the locations of ranks 21 to 25, `X-Page-Size: 5`, `X-Current-Page: 3` and a `next` link to page 4 |
| `Pagination.FourthOfTwentyFive` | src/Controller/BookmarkController.php:187-224 | with 25 rows and step 10, page 4 answers 204 with no body, `X-Page-Size: 0` and `X-Current-Page: 4` |
| `Pagination.LastOfTwentyFive` | src/Controller/BookmarkController.php:187-234 | with 25 rows and step 10, the last page answers 206 with ranks 15 to 24 and `X-Current-Page: 2` |
| `Pagination.LocationInjective` | src/Controller/BookmarkController.php:210 | distinct ids have distinct locations |
| `Pagination.LocationsDistinct` | src/Controller/BookmarkController.php:200-211 | in an id-descending store a 206 lists pairwise distinct locations |
| `Pagination.CollectionDependsOnlyOnIds` | src/Controller/BookmarkController.php:187-232 | two stores with the same id sequence get the same outcome, whatever else their rows hold |
| `Pagination.CollectionShapeDependsOnlyOnCount` | src/Controller/BookmarkController.php:213-224 | two stores of the same size get the same status, reason and headers |
| `BookmarkController.TakesLastRoute` | src/Controller/BookmarkController.php:189 | the `in_array` test on the route name holds exactly for `/last` and `/last/{step}` |
| `BookmarkController.Collection` | src/Controller/BookmarkController.php:172-235 | `collection` is the shared rule over the bookmark store, with the route's parameters and its last-page kind |
| `UserController.TakesLastRoute` | src/Controller/UserController.php:36 | the `in_array` test on the route name holds exactly for `/last` and `/last/{step}` |
| `UserController.Index` | src/Controller/UserController.php:19-82 | `index` is the shared rule over the user store: the same two formulas for `current`, the same window, headers, status and body |
| `Agreement.IndexMatchesBookmarkCollection` | src/Controller/UserController.php:34-81 | for the same route, base URL and id sequence, `index` gives exactly the outcome the bookmark `collection` gives |
| `Agreement.IndexShapeMatchesBookmarkCollection` | src/Controller/UserController.php:60-71 | for the same route, base URL and row count, the two handlers answer with the same status, reason and headers |
| `UserController.Create` | src/Controller/UserController.php:94-119 | an email or password that PHP `empty()` rejects (null, `""`, `"0"`) gives 400 "Missing email or password" and stores nothing; otherwise 201 with one new user in front (hashed password, roles `[]` when absent) and a `Location` for the new id |
| `UserController.Update` | src/Controller/UserController.php:164-184 | an empty email or password gives 400 and leaves the user unchanged; otherwise 200 with email and hashed password replaced, the id kept, and the old roles kept when the request has none |
| `UserController.UpdateIdempotent` | src/Controller/UserController.php:164-178 | sending the same update twice gives the same answer and keeps the id, email and roles of a single update; the stored password is the last call's hash, as one update with that call's hasher would store |
| `UserController.CreateKeepsIdOrder` | src/Controller/UserController.php:106-112 | with a key above every stored one, the store stays in strictly descending id order after `create` |
| `UserController.CreatedUserListedFirst` | src/Controller/UserController.php:106-117 | when the database gives the new user a key above every stored one, after a successful `create` the new user is the store's latest entry (largest key) and the first collection page is a 206 whose first location is the new user's |
| `UserDto.SetDefaultRoles` | src/Model/UserDto.php:27-31 | afterwards roles are neither null nor empty; null and `[]` become `["ROLE_USER"]`, a non-empty list is kept, and email and password are untouched |
| `UserDto.SetDefaultRolesIdempotent` | src/Model/UserDto.php:30 | applying the default twice is applying it once |

## Left out

- Persistence (`persist`, `flush`, `remove`, and the repository's `add`/`remove`) belongs to the object mapper. The store is an immutable id-descending sequence. `create` returns the new store, and the new key is a parameter.
- `UserRepository` is not part of this model. The user store is assumed to offer the same `countAll` and `findNextX` as the bookmark store.
- The query layer's handling of a negative first result is not part of this model. The model makes it the explicit `QueryFailed` outcome instead of guessing a result set. The database layer refuses negative offsets.
- Uncaught errors (the division by zero, a refused query) are outcomes. The framework's conversion of them into 500 responses is not modelled.
- Form validation in bookmark `create`/`update` and the validation constraints on `UserDto` are framework validators.
- Password hashing is a foreign call. It is the parameter `hash`.
- UserController.Update: `hash` stands for the result of one call of the password hasher. A real hasher salts every call, so two updates with the same password store different hashes. `UserController.UpdateIdempotent` therefore gives each update its own hasher and compares the stored users up to the password.
- UserController.Update: the `User` entity is not part of this model. `getRoles()` is read as the stored roles list, with no role added on read. A request that sends `roles` explicitly as null is treated like one that leaves it out, because the model's `roles` is a single `Option`.
- UserController.Create: the key `newId` is a parameter. The database assigns one above every stored key. `Create` does not enforce this; the lemmas about ordering (`CreateKeepsIdOrder`, `CreatedUserListedFirst`) take it as a precondition.
- `ApiSecurityController` (login, me, logout) wraps framework authentication.
- `ControllerTrait` does content-type negotiation and `json_decode`, which is library behaviour.
- The bookmark `read`, `latest` and `delete` handlers and user `read` are direct lookups with only a null check.
- URL generation and absolute-URL building are opaque. The collection base URL and the users URL are parameters.
- Headers are an ordered list of (name, value) pairs. The framework's header-bag normalisation and the headers it adds on its own (`Cache-Control`, `Date`) are not modelled.
- Reason phrases for 201 and 206 are the framework's standard texts.
- Response bodies other than the collection listing are not modelled. `body = None` means "no listing". A `JsonResponse` built without data carries `{}`, and the 201, 200 and 400 answers of `create`/`update` do carry it. The 204 answer goes out empty only because the framework strips the content of a 204 when it prepares the response.
- Request values other than strings or null for `email`/`password` are not modelled. The entity setters are typed and are not part of this model.
- Read skew between `countAll` and `findNextX` under concurrent writes is a concurrency concern. One store value serves both queries.
- Integers are unbounded. PHP's overflow of `(page - 1) * step` to a float for huge route parameters is not modelled.
