# TinyUrl link registry — a Dafny model

This project models the backend core of the TinyUrl short-link service:
- the `Url` record schema (backend/models/Url.js);
- the five request handlers of backend/controllers/urlController.js that work on the `Urls` table: `createLink`, `listLinks`, `getLinkStats`, `deleteLink` and `redirectLink`.

The model has three modules, one file each.

- `UrlModel` (url_model.dfy) is the schema.
  - A `Url` row is a datatype with the columns `id`, `shortUrl`, `longUrl`, `clickCount`, `clickTimestamps` and `createdAt`.
  - Timestamps are naturals.
  - The schema constraints are predicates over a table: `shortUrl` is unique and at most `STRING(10)` wide, and `id` is unique.
  - The controller's own invariant is `LinksConsistent`: every `longUrl` is non-empty, and `clickCount == |clickTimestamps|`.
  - The table operations are pure functions: lookup by short code (`findOne`), UPDATE by primary key and DELETE by primary key. The lemmas about the table live here too.
- `UrlStore` (url_store.dfy) is the table as Sequelize reaches it.
  - The class `UrlTable` holds the rows and the `id` sequence.
  - Its methods `Create`, `Update` and `Destroy` stand in for `Url.create`, `instance.update` and `instance.destroy`. Each keeps the schema (`Valid()`).
  - `Create` refuses, as the database does, a short code that is already taken or longer than 10 characters.
- `UrlController` (url_controller.dfy) holds the handlers.
  - Each reply is a `Response`: 201 `Created`, 400 `BadRequest`, 409 `Conflict`, 404 `NotFound`, 200 `Stats`/`Listing`/`Deleted`, 302 `Redirect` or 500 `ServerError`. The error strings are the source's own.
  - `createLink`, `deleteLink` and `redirectLink` change the table, so they are methods on a `UrlTable`.
  - `listLinks` and `getLinkStats` only read it, so they are functions.

Things outside the model are parameters:
- The clock is `now`, the instant a handler reads.
- The short-code generator (`generateShortCode`, in a file that is not part of this model) is an oracle `gen: nat -> string`. `gen(i)` is the candidate that the (i+1)-th call in one request returns.
- The loop at urlController.js:35-38 has no retry cap, so it can run forever. `GenerateCode` takes a `fuel` bound on the number of generator calls that are observed. When every observed candidate is taken, the reply is `Pending`: no reply yet, and the table is unchanged. This is not an error sent to the client.
- `DistinctCandidatesFindFreeCode` proves that a generator whose first n+1 candidates, for a table of n rows, are pairwise distinct always yields a free code within that many calls.

The model follows the code where it differs from a design with atomic store operations and capped retries:
- The code has no retry cap and no "generation exhausted" error.
- It checks for duplicates with a lookup before the INSERT.
- It counts a click by loading the row and writing back the loaded count + 1 and the loaded history with `now` appended.

## Model

| member | source | states |
|---|---|---|
| `UrlModel.WithDefaults` | backend/models/Url.js:19-30 | a created row takes the given id and `createdAt = now` and keeps the given codes; `clickCount` and `clickTimestamps` are stored as given when given (the controller gives `0` and `[]`), and default to `0` and `[]` when omitted |
| `UrlModel.IndexOf` | backend/controllers/urlController.js:89 | the lookup by short code finds a position exactly when some row carries the code; that row carries it and no earlier row does |
| `UrlModel.Find` | backend/controllers/urlController.js:126 | `findOne` returns a stored row carrying the code, or nothing exactly when no row carries it |
| `UrlModel.FindUnique` | backend/models/Url.js:10-14 | with unique short codes the lookup returns the one row that carries the code |
| `UrlModel.SetClicks` | backend/controllers/urlController.js:130-133 | UPDATE by key: the table keeps its length; rows with that key get the new count and history; every other row is unchanged |
| `UrlModel.SetClicksKeepsSchema` | backend/models/Url.js:10-30 | the click update keeps both unique keys and the column width, and changes no row's `createdAt` |
| `UrlModel.RemoveIdMembers` | backend/controllers/urlController.js:111 | after DELETE by key, the rows left are exactly the old rows with another key |
| `UrlModel.RemoveAbsentId` | backend/controllers/urlController.js:111 | DELETE by a key no row has leaves the table unchanged |
| `UrlModel.RemoveUniqueId` | backend/controllers/urlController.js:111 | DELETE by the key of row k removes exactly that row and keeps the others in order |
| `UrlModel.RemoveId` | backend/controllers/urlController.js:111 | DELETE by key never adds rows; what it removes and keeps is stated by `RemoveIdMembers`, `RemoveAbsentId` and `RemoveUniqueId` |
| `UrlModel.DropKeepsInvariants` | backend/models/Url.js:10-14 | removing one row keeps the schema and a click count equal to the history length |
| `UrlModel.Click` | backend/controllers/urlController.js:126-133 | the table after one redirect keeps its length; its effect on each row is stated by `ClickEffect` and `ClickUnknown` |
| `UrlModel.Delete` | backend/controllers/urlController.js:107-111 | the table after one delete never grows, and is unchanged for an unknown code; `DeleteEffect` and `DeleteRemovesCode` state the rest |
| `UrlModel.ClickEffect` | backend/controllers/urlController.js:126-135 | a redirect on a known code adds 1 to that row's count and appends `now` after its earlier timestamps; every other row is unchanged |
| `UrlModel.ClickUnknown` | backend/controllers/urlController.js:126-128 | a redirect on an unknown code changes nothing |
| `UrlModel.ClickKeepsSchema` | backend/controllers/urlController.js:130-133 | the click update keeps both unique keys and the column width |
| `UrlModel.ClickKeepsInvariants` | backend/controllers/urlController.js:130-133 | a redirect keeps the schema and a click count equal to the history length, and changes no `createdAt` |
| `UrlModel.ClickKeepsChronological` | backend/controllers/urlController.js:132 | if the clock reads no earlier than the recorded clicks, the history stays in chronological order |
| `UrlModel.Clicks` | backend/controllers/urlController.js:126-133 | a run of redirects on one code keeps the table length; `ClicksAccumulate` and `ClicksLeaveOthers` state its effect |
| `UrlModel.ClicksAccumulate` | backend/controllers/urlController.js:126-133 | n redirects in a row on a known code raise its count by exactly n, and its history becomes the old one followed by the n instants |
| `UrlModel.ClicksLeaveOthers` | backend/controllers/urlController.js:126-133 | redirects on one code leave every other row unchanged |
| `UrlModel.DeleteRemovesCode` | backend/controllers/urlController.js:107-111 | once deleted, the code is carried by no row |
| `UrlModel.RedirectAfterDelete` | backend/controllers/urlController.js:107-128 | after a delete, a lookup of the code finds nothing and a redirect on it changes nothing |
| `UrlModel.DeleteEffect` | backend/controllers/urlController.js:107-112 | deleting an unknown code changes nothing; deleting a known code removes exactly its row; both keep the schema and the click invariant |
| `UrlModel.AppendKeepsSchema` | backend/models/Url.js:5-14 | inserting a row with a key above all existing keys and a free short code of at most 10 characters keeps the schema |
| `UrlModel.RemoveIdKeepsInvariants` | backend/controllers/urlController.js:111 | DELETE by any key keeps the schema and the click invariant, and leaves exactly the rows with another key |
| `UrlStore.UrlTable.constructor` | backend/models/Url.js:5-9 | an empty table whose key sequence starts at 1 |
| `UrlStore.UrlTable.Create` | backend/models/Url.js:5-30 | INSERT fails, with nothing changed, exactly when the code is taken or over 10 characters; otherwise it appends one row with the defaults and the next key, which differs from every existing key |
| `UrlStore.UrlTable.Update` | backend/controllers/urlController.js:130-133 | UPDATE by key turns the table into `SetClicks` of the old one, keeping the schema and the key sequence |
| `UrlStore.UrlTable.Destroy` | backend/controllers/urlController.js:111 | DELETE by key turns the table into the old rows with another key (`RemoveId`), keeping the schema and the key sequence |
| `UrlController.Present` | backend/controllers/urlController.js:13-33 | the JavaScript truthiness test on a body field: false exactly for an absent field or the empty string, and true only for a non-empty string |
| `UrlController.IsCustomCode` | backend/controllers/urlController.js:18 | the pattern `^[A-Za-z0-9]{6,8}$`: a matching code is non-empty, fits the 10-character column and has only ASCII letters and digits |
| `UrlController.CustomCodeFitsColumn` | backend/models/Url.js:10-14 | every code matching `^[A-Za-z0-9]{6,8}$` is non-empty and fits the 10-character column |
| `UrlController.GenerateCode` | backend/controllers/urlController.js:33-39 | if the retry loop exits, the chosen candidate is free and is the first free one; it answers nothing exactly when every observed candidate is taken |
| `UrlController.CreateLink` | backend/controllers/urlController.js:11-48 | 400 exactly for a missing or empty `longUrl`, and exactly for a present custom code not matching the pattern; 409 exactly for a well-formed custom code already in use; a free well-formed custom code is always created as itself; in auto mode the code is the first free candidate; 500 only for a generated code over 10 characters; on 201 exactly one row is added, with the given `longUrl`, count 0, empty history, `createdAt = now`, a fresh key and a fresh short code; every other reply leaves the table unchanged |
| `UrlController.CodesBound` | backend/models/Url.js:10-14 | a table of n rows carries at most n short codes |
| `UrlController.CandidatesCount` | backend/controllers/urlController.js:35-38 | n pairwise-distinct candidates are n different codes |
| `UrlController.DistinctCandidatesFindFreeCode` | backend/controllers/urlController.js:35-38 | if the first n+1 candidates for a table of n rows are pairwise distinct, one of them is free |
| `UrlController.DistinctCandidatesAnswer` | backend/controllers/urlController.js:35-38 | with such a generator and more than n calls, not every observed candidate is taken, so `GenerateCode` returns a candidate: the loop always exits |
| `UrlController.InsertByCreatedAt` | backend/controllers/urlController.js:60 | inserting into a newest-first sequence keeps it newest-first and adds only the inserted row |
| `UrlController.InsertIsPermutation` | backend/controllers/urlController.js:60 | insertion loses no row |
| `UrlController.NewestFirst` | backend/controllers/urlController.js:60 | `findAll` ordered by `createdAt DESC` is a permutation of the table with `createdAt` non-increasing |
| `UrlController.LastClicked` | backend/controllers/urlController.js:64-67 | null exactly for an empty history; otherwise an instant of the history, and the latest one when the history is chronological |
| `UrlController.LastClickedAfterAppend` | backend/controllers/urlController.js:64-67 | after an instant is appended to any history, `lastClicked` is that instant |
| `UrlController.LastClickedAfterClick` | backend/controllers/urlController.js:126-133 | after a redirect on a known code, the listing's `lastClicked` for that row is the redirect's `now`, whatever the history held before |
| `UrlController.ListLinks` | backend/controllers/urlController.js:58-75 | one entry per stored row (same multiset of rows), `createdAt` non-increasing, each entry with its `lastClicked`; a function, so the table is not touched |
| `UrlController.GetLinkStats` | backend/controllers/urlController.js:85-93 | returns the stored row that carries the code, or 404 "Link not found" exactly when there is none; a function, so nothing changes and repeated calls agree |
| `UrlController.DeleteLink` | backend/controllers/urlController.js:103-112 | 404 with no change exactly for an unknown code; otherwise "Link deleted", exactly that row removed and the others kept in order; afterwards stats on the code are 404 and a redirect on it changes nothing |
| `UrlController.RedirectLink` | backend/controllers/urlController.js:122-135 | 404 "Not found" with no change exactly for an unknown code; otherwise a redirect to that row's `longUrl`, its count raised by 1, `now` appended to its history, and every other row unchanged; keeps the schema and a click count equal to the history length |

## Left out

- The `catch` branches that answer 500 for storage failures are not modelled: a broken connection or a failing query belongs to the database library. So a failed click update, which the source answers with a 500 and not a redirect, is not modelled either: `UrlTable.Update` always succeeds. One is modelled: an INSERT refused by the table's own constraints (`UrlTable.Create` returning nothing).
- Concurrency is not modelled. The handlers run one after another. The duplicate check followed by the INSERT (urlController.js:28 then :41), and the load-then-update click count (urlController.js:126-133), can lose updates under concurrent requests. The model says nothing about that.
- The generator's source is not part of this model, nor is its distribution. `gen` is an arbitrary candidate supplier.
- `GenerateCode` and `CreateLink` observe at most `fuel` generator calls. A request whose generator never yields a free code runs forever in the source. The model reports it as `Pending` once the fuel is spent.
- Date values and their formatting are abstract naturals. `new Date()` and the `createdAt` default are the `now` parameter.
- Sequelize's implicit `updatedAt` column is not modelled. Url.js does not declare it.
- The 32-bit width of the `INTEGER` columns `id` and `clickCount` is not modelled. Both are unbounded naturals.
- A failed INSERT in the database still uses up a sequence value. The model leaves `nextId` unchanged on failure, so it does not show the resulting gaps in `id`.
- Request-body fields are modelled as absent, or as a string. JSON numbers, booleans and objects for `longUrl` or `code` are not modelled.
- `NewestFirst` fixes one order among rows with equal `createdAt`. The source leaves that order to the database. The contracts promise only the non-increasing order and the permutation.
- These parts of the repository are not modelled: backend/server.js (process setup, CORS, health routes, lazy database initialisation); backend/routes/urlRoutes.js (routing only); backend/config/db.js (connection settings); and the frontend pages. The frontend repeats the backend's code check and `lastClicked` derivation, and the model covers the backend versions.
