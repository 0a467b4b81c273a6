# Bookmarks server: a verified model of the bookmarks router

The bookmarks server is a small CRUD HTTP API over one table of bookmarks
(title, url, description, rating). Its decision logic lives in the
bookmarks router: `validateBookmark`, which turns a request body into an
error message or the fields to store; `serializeBookmark`, which sanitises a
stored row for output; and the five handlers (POST, GET all, GET one, PATCH,
DELETE), which check existence, validate, write and pick a status and body.

This project models that router in Dafny and proves what it promises.

- `js_value.dfy` (module `JsValue`): the values a parsed JSON body holds, plus
  `undefined`, with JavaScript truthiness, `Number.isInteger`, the number
  coercion that `<` and `>` apply, and the decimal text of an id.
- `validation.dfy` (modules `Validation`, `ValidationProperties`):
  `validateBookmark` as the method `ValidateBookmark`. It keeps the source's
  two loops: the early-return loop over the required fields and the loop that
  copies the truthy recognised fields. It is proved equal to the function
  `Validate`, and lemmas about `Validate` characterise every outcome.
- `store.dfy` (module `Store`): the table behind `BookmarksService`. It is a
  class holding the rows in storage order and the next id to assign. The knex
  queries become the class's methods, specified by functions on the rows
  (`FindById`, `NewRow`, `UpdateRows`, `DeleteRows`).
- `serialize.dfy` (module `Serialize`): `serializeBookmark` and the list
  mapping.
- `router.dfy` (module `Router`): the handlers as methods over the table, the
  `Location` header, and the invariant that every row written through the
  router is well formed.
- `scenarios.dfy` (module `Scenarios`): the create-then-read and
  delete-then-read sequences of the endpoint tests, and the same sequence for
  PATCH. They are proved from the handlers' contracts alone.

Two foreign functions are parameters of the operations that use them:
`isWebUri` from `valid-url` (`Value -> bool`) and the `xss` sanitiser
(`Value -> string`). Nothing is assumed about either.

The rating condition on line 38 parses as
`(rating && !Number.isInteger(rating)) || rating < 1 || rating > 5`, because
`&&` binds tighter than `||`. The condition looks like an operator-precedence
slip, but under JavaScript's coercions it already implements the intended
rule: it accepts exactly an absent rating or an integer from 1 to 5
(`Validation.RatingRule`). An absent rating passes
because `undefined` compares as NaN. `null`, `0`, `false` and `""` fail because
each compares as 0. Every other non-integer fails on the first disjunct.
That is the rule "check the rating only when it is given, and then require an
integer in [1,5]", so the model follows the code as written.

## Model

| member | source | states |
|---|---|---|
| `JsValue.DecimalString` | src/bookmarks/bookmarks-router.js:78 | The text of an id in the Location is non-empty, all digits, and has no leading zero unless the id is 0 |
| `JsValue.DecimalRoundTrip` | src/bookmarks/bookmarks-router.js:78 | Reading the decimal text of an id back gives the id |
| `JsValue.StringToNumberOfDecimal` | src/bookmarks/bookmarks-router.js:38 | A digit-string rating coerces to its value in `rating < 1` |
| `JsValue.FalsyCoercesToZero` | src/bookmarks/bookmarks-router.js:38 | Every falsy value except `undefined` (null, false, 0, "") compares as 0 in `rating < 1` |
| `Validation.MessageInjective` | src/bookmarks/bookmarks-router.js:32-56 | The four kinds of 400 message are pairwise distinct, and missing-field messages for different fields differ |
| `Validation.RatingRule` | src/bookmarks/bookmarks-router.js:38-40 | The rating condition as parsed accepts exactly an absent rating or an integer from 1 to 5 |
| `Validation.FirstMissing` | src/bookmarks/bookmarks-router.js:29-34 | Returns nothing exactly when every listed field is truthy; otherwise returns the first falsy field, all before it being truthy |
| `Validation.ValidateBookmark` | src/bookmarks/bookmarks-router.js:25-60 | The method with the required-field loop and the copying loop returns exactly the outcome `Validate` describes |
| `ValidationProperties.MissingFieldIsFirstFalsy` | src/bookmarks/bookmarks-router.js:28-35 | On insert, the first falsy field in the order title, url, rating is reported as `'<field>' is required`; no other field is ever reported, and an update never gets this error |
| `ValidationProperties.RatingErrorExactly` | src/bookmarks/bookmarks-router.js:38-40 | The rating error comes exactly when no required field is missing and the rating condition holds |
| `ValidationProperties.UrlErrorExactly` | src/bookmarks/bookmarks-router.js:43-45 | The URL error comes exactly when the earlier checks pass, the url is truthy and it is not a web URI |
| `ValidationProperties.PickedExactly` | src/bookmarks/bookmarks-router.js:47-52 | The copied object holds exactly the truthy keys among title, url, rating and description, each with the body's value; it is empty exactly when none is given |
| `ValidationProperties.EmptyUpdateExactly` | src/bookmarks/bookmarks-router.js:55-57 | The empty-update error comes exactly for an update that passes the rating and URL checks and gives no truthy recognised field; an insert never gets it |
| `ValidationProperties.SuccessExactly` | src/bookmarks/bookmarks-router.js:47-59 | Validation succeeds exactly when every check passes; the result holds exactly the truthy recognised fields with their values, and unrecognised keys are dropped |
| `ValidationProperties.InsertSuccessIsComplete` | src/bookmarks/bookmarks-router.js:28-52 | A successful insert holds a truthy title, a url that is a web URI, and a rating that is an integer from 1 to 5 |
| `ValidationProperties.UpdateSuccessIsValid` | src/bookmarks/bookmarks-router.js:38-57 | A successful update is non-empty, every value in it is truthy, its url is a web URI, and its rating is an integer from 1 to 5 |
| `ValidationProperties.IgnoresUnrecognisedKeys` | src/bookmarks/bookmarks-router.js:26-52 | Two bodies that agree on title, url, rating and description validate alike |
| `ValidationProperties.RatingOfTwentyOneRefused` | test/bookmarks-endpoints.spec.js:68-76 | An insert with every field given and rating 21 is refused with the rating error |
| `ValidationProperties.OnlyUnrecognisedKeysIsEmptyUpdate` | src/bookmarks/bookmarks-router.js:55-57 | An update whose body holds only unrecognised keys is refused with the empty-update error |
| `Store.FindById` | src/bookmarks/bookmarks-service.js:8-14 | Finds nothing exactly when no row has the id; otherwise finds a row of the table with that id |
| `Store.FindByIdAt` | src/bookmarks/bookmarks-service.js:8-14 | With distinct ids, looking up a row's id finds that row |
| `Store.UpdateRowsAt` | src/bookmarks/bookmarks-service.js:24-29 | An update keeps the number and order of rows and every id; it patches the rows with that id and leaves every other row as it was |
| `Store.UpdateRowsDistinct` | src/bookmarks/bookmarks-service.js:24-29 | An update keeps the ids distinct |
| `Store.UpdateRowsFind` | src/bookmarks/bookmarks-service.js:24-29 | After an update the id finds its patched row, every other id finds the same row as before, ids stay distinct, and an absent id changes nothing |
| `Store.DeleteRowsMembers` | src/bookmarks/bookmarks-service.js:31-36 | A delete keeps exactly the rows whose id differs |
| `Store.DeleteRowsDistinct` | src/bookmarks/bookmarks-service.js:31-36 | A delete keeps the ids distinct |
| `Store.DeleteRowsLength` | src/bookmarks/bookmarks-service.js:31-36 | Deleting an absent id changes nothing; deleting a present id removes exactly one row |
| `Store.DeleteRowsFind` | src/bookmarks/bookmarks-service.js:31-36 | After a delete the id finds nothing and every other id finds the same row as before |
| `Store.BookmarksTable.GetAllBookmarks` | src/bookmarks/bookmarks-service.js:2-6 | Returns every row in storage order |
| `Store.BookmarksTable.GetBookmarkById` | src/bookmarks/bookmarks-service.js:8-14 | Returns nothing exactly when no row has the id, otherwise a row with that id |
| `Store.BookmarksTable.AddBookmark` | src/bookmarks/bookmarks-service.js:16-22 | Appends the row built from the fields under a fresh id that no earlier row has, and returns it; the table stays valid |
| `Store.BookmarksTable.UpdateBookmark` | src/bookmarks/bookmarks-service.js:24-29 | Overwrites the given columns of the row with that id and nothing else; the table stays valid |
| `Store.BookmarksTable.DeleteBookmark` | src/bookmarks/bookmarks-service.js:31-36 | Removes the row with that id and nothing else; the table stays valid |
| `Serialize.SerializeBookmark` | src/bookmarks/bookmarks-router.js:13-21 | id, url and rating pass through unchanged; title and description reach the output only through the sanitiser |
| `Serialize.SerializeAllPointwise` | src/bookmarks/bookmarks-router.js:93 | The list has one sanitised entry per row, in the rows' order, with the rows' ids |
| `Router.LocationNamesId` | src/bookmarks/bookmarks-router.js:78 | The last path segment of the Location is the new id's decimal text, which reads back as the id |
| `Router.CollectionLocation` | test/bookmarks-endpoints.spec.js:41 | Posting to `/bookmarks` or `/bookmarks/` gives the Location `/bookmarks/<id>` |
| `Router.InsertedRowConforms` | src/bookmarks/bookmarks-router.js:66-74 | A row inserted from a valid insert body has a truthy title, a web-URI url and a rating from 1 to 5 |
| `Router.PatchedRowConforms` | src/bookmarks/bookmarks-router.js:134-141 | Patching a well-formed row from a valid update body keeps it well formed, so an update never removes a required field |
| `Router.PostBookmark` | src/bookmarks/bookmarks-router.js:64-83 | An invalid body gets 400 with its message and changes nothing; a valid one is appended under a fresh id and gets 201 with Location and the sanitised row; well-formed tables stay well formed |
| `Router.GetBookmarks` | src/bookmarks/bookmarks-router.js:87-96 | Answers 200 with one sanitised entry per row, in storage order (an empty list for an empty table) |
| `Router.GetBookmark` | src/bookmarks/bookmarks-router.js:98-116 | Answers 404 `Bookmark Not Found` exactly when no row has the id, otherwise 200 with that row sanitised |
| `Router.PatchBookmark` | src/bookmarks/bookmarks-router.js:120-150 | An absent id gets 404 whatever the body, because existence is checked before validation; then 400 with the validation message; else 204 and only that row's given columns change |
| `Router.DeleteBookmark` | src/bookmarks/bookmarks-router.js:154-174 | An absent id gets 404 and changes nothing; else 204 and exactly that row is removed; afterwards no row has the id |
| `Scenarios.CreateThenRead` | test/bookmarks-endpoints.spec.js:30-50 | A POST answers 201 exactly for a valid body, and then a GET of the returned id answers 200 with the same record |
| `Scenarios.UpdateThenRead` | src/bookmarks/bookmarks-router.js:120-150 | After PATCH, GET sees the patched row on 204, the unchanged row on 400, and 404 when the PATCH was a 404 |
| `Scenarios.DeleteThenRead` | test/bookmarks-endpoints.spec.js:181-203 | After DELETE, whether 204 or 404, a GET of the same id answers 404 `Bookmark Not Found` |

## Left out

- The `xss` sanitiser's HTML filtering is a foreign library. It is a parameter, so the XSS test's exact expected description (the `onerror` attribute stripped) is not derived.
- `isWebUri` from `valid-url` is a foreign URI check and is a parameter. The model treats it as a total predicate, although the library may throw on a non-string url.
- JsValue.StringToNumber: reads only optionally signed decimal integer literals (after trimming); fractions, exponents, `0x`/`0o`/`0b` literals and `Infinity` read as NaN here. No validation outcome depends on this: every non-empty string rating is refused whatever it coerces to (`Validation.RatingRule`).
- JSON numbers are exact reals. Double-precision rounding (a rating written as 1.0000000000000001 parses to 1 in JavaScript) is not modelled.
- Express routing, JSON body parsing and `res` plumbing are not modelled. A JSON array body is treated like an object without the four keys.
- Promise chaining and `.catch(next)` are not modelled, so neither is the generic 500 path. Storage failures (constraint violations, a failing insert or update) and the unhandled rejection of the inner update and delete promises are left out.
- The route's `:id` is an integer here. A non-numeric id makes the database query fail (a 500), and that is not modelled.
- Postgres column typing is not modelled: a stored value is kept as the JSON value it was given (a numeric title, for instance, is not turned into text).
- Row order: a select without `ORDER BY` has no defined order. The model keeps insertion order and updates rows in place.
- Id assignment: the table assigns one more than any id it has handed out. Rows inserted with explicit ids outside the router (as the test fixtures do), and the id collisions that would follow, are not modelled.
- Router.LocationOf: models `path.posix.join` by stripping the trailing slashes of the original URL. The normalisation of `.`, `..` and repeated slashes inside it is not modelled.
- Concurrency between requests is not modelled, including the gap between the existence check and the write in PATCH and DELETE.
- The test harness and fixtures (database setup, truncation, `Math.random` choice) are used only as evidence for expected values.
