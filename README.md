# cepapi: a Dafny model of the CEP lookup and favourites

cepapi is a Laravel application that looks up Brazilian postal codes (CEPs).
`GET /api/cep/{cep}` formats the code as `NNNNN-NNN` and searches the
`ceps` table for it. On a hit it returns the stored row. On a miss it asks
an upstream ViaCEP-style service for the raw code and stores the JSON
object it gets back with `Cep::updateOrCreate`. If the upstream call fails,
the reply is a 404 with a fixed message. A user can also keep CEPs as
favourites through the `cep_user_pivot` table, with a nickname.

The model has four modules, one per core file, plus a small `Wrappers`
module:

- `CepsTable` (`ceps_table.dfy`): the `ceps` table as the migration
  creates it. Rows have an id, a unique non-NULL `cep` and twelve nullable
  descriptive columns. `Insert` and `UpdateRow` are the two writes the
  database accepts or refuses (NOT NULL on `cep`, UNIQUE on `cep`).
- `CepModel` (`cep_model.dfy`): the `Cep` model's `$fillable` whitelist,
  the `where('cep', …)->first()` lookup, and `updateOrCreate` as a function
  `Upsert` on table values. The `CepStore` class holds the table's rows as
  fields and changes them in place in `UpdateOrCreate`, which is proved
  equal to `Upsert`.
- `CepController` (`cep_controller.dfy`): the formatter
  `preg_replace('/(\d{5})(\d{3})/', '$1-$2', $cep)` as the function
  `Format`, the URL `getExternalCep` requests, the attribute map
  `storeCepData` builds (the method `BuildAttributes` with its `foreach`
  loop), and `inspect`. `Inspection` is `inspect` as a function of the
  table, the input, the configured base URL and the upstream outcome. The
  method `Inspect` runs it against a `CepStore`. Lemmas restate the three
  feature-test scenarios.
- `UserModel` (`user_model.dfy`): the pivot table as a class with
  `Attach` and `Detach`, the `ceps`/`users` relations read from it, and the
  `User` methods `addToFavorites`, `removeFromFavorites` and `isFavorite`.

The HTTP call is not modelled as I/O. Its outcome is a parameter
(`Upstream`: `Failed`, or `Fetched` with the decoded JSON object), and so is
the value of the `CEP_API_URI` setting (`base`). Pivot timestamps come from
a `now` parameter.

Behaviour that follows the code where a plain reading of the application
might expect otherwise:

- The input is never stripped or validated. The formatter rewrites every
  leftmost, non-overlapping run of eight ASCII digits, anywhere in the
  string. Any other input is looked up and requested as it is.
- Formatting is not idempotent. Thirteen digits become `NNNNN-NNNNNNNN`,
  which still holds eight digits in a row (`FormatNotIdempotent`).
- `updateOrCreate` is keyed on the raw, unformatted input. The `cep`
  written comes from the payload when it has one. So a code stored as
  `01001-000` is never found by that key, and a second store of the same
  raw code tries a second insert, which the unique index refuses
  (`UpsertRepeatIsRejected`). `inspect` itself looks up the formatted code,
  so in practice it reaches the store only on a miss.
- `addToFavorites` does not check for an existing favourite: attaching
  twice gives two pivot rows (`AttachDuplicates`). `detach` removes every
  row of the pair.
- Database refusals are modelled as values, and the table stays as it
  was. A refused UPDATE, or an INSERT with a NULL `cep`, reaches `inspect`
  uncaught and the reply is a 500 (`ServerError`). A unique violation on
  the INSERT of `updateOrCreate` is caught by `createOrFirst`, which repeats
  the lookup with `firstOrFail`. That lookup is by the raw code, and no row
  holds the raw code, which is why the insert was tried. So it throws
  `ModelNotFoundException`, and the reply is the framework's 404 `No query
  results for model [App\Models\Cep].` (`InspectionCreateConflict`). The
  model follows `updateOrCreate` as the framework has implemented it since
  `createOrFirst` was introduced. The framework's source is not part of
  this model.

## Model

| member | source | states |
|---|---|---|
| CepsTable.Name | database/migrations/2025_05_09_021355_create_ceps_table.php:16-28 | every descriptive column of the model is one of the thirteen data columns the migration creates |
| CepsTable.EveryDataColumnNamed | database/migrations/2025_05_09_021355_create_ceps_table.php:16-28 | every data column of the migration is the name of some modelled column |
| CepsTable.NamesDistinct | database/migrations/2025_05_09_021355_create_ceps_table.php:16-28 | distinct modelled columns have distinct column names |
| CepsTable.DataColumnsAreColumns | database/migrations/2025_05_09_021355_create_ceps_table.php:15-29 | the table's columns are the thirteen data columns plus `id`, `created_at` and `updated_at` |
| CepsTable.Assign | database/migrations/2025_05_09_021355_create_ceps_table.php:15-28 | writing attributes never changes the id, sets `cep` to the given non-NULL value, and a NULL `cep` keeps the old one |
| CepsTable.EmptyRow | database/migrations/2025_05_09_021355_create_ceps_table.php:17-28 | a fresh row has the given id and `cep` and NULL in every nullable column |
| CepsTable.AssignColumns | database/migrations/2025_05_09_021355_create_ceps_table.php:17-28 | each column after a write holds the written value if it was given, else its old value |
| CepsTable.UniqueCeps | database/migrations/2025_05_09_021355_create_ceps_table.php:16 | the unique index: no two rows hold the same `cep` |
| CepsTable.ValidTable | database/migrations/2025_05_09_021355_create_ceps_table.php:15-16 | unique `cep`s, distinct ids, and every id below the next one the auto-increment hands out |
| CepsTable.Insert | database/migrations/2025_05_09_021355_create_ceps_table.php:15-16 | an INSERT fails exactly when `cep` is missing, NULL or already held (NOT NULL and UNIQUE). Otherwise it appends one row under the next id and leaves the other rows alone |
| CepsTable.UpdateRow | database/migrations/2025_05_09_021355_create_ceps_table.php:16 | an UPDATE fails exactly when it sets `cep` to NULL or to a value another row holds. Otherwise only row `i` changes and the ids stay |
| CepsTable.InsertColumns | database/migrations/2025_05_09_021355_create_ceps_table.php:15-28 | an inserted row gets the next id, and each column holds the given value or NULL |
| CepsTable.UpdateColumns | database/migrations/2025_05_09_021355_create_ceps_table.php:15-28 | an updated row keeps its id, and each column holds the given value or its old one |
| CepsTable.InsertKeepsValid | database/migrations/2025_05_09_021355_create_ceps_table.php:15-16 | an accepted insert keeps `cep` unique and the ids distinct and below the next id |
| CepsTable.UpdateKeepsValid | database/migrations/2025_05_09_021355_create_ceps_table.php:15-16 | an accepted update keeps `cep` unique and the ids distinct and below the next id |
| CepModel.FillFilter | app/Models/Cep.php:12-26 | mass assignment keeps only given keys, with their values unchanged |
| CepModel.FillFilterKeys | app/Models/Cep.php:12-26 | a key survives mass assignment exactly when it is given and in `$fillable` |
| CepModel.FillableIsDataColumns | app/Models/Cep.php:12-26 | `$fillable` lists thirteen names, exactly the migration's data columns |
| CepModel.FilteredKeysAreColumns | app/Models/Cep.php:12-26 | whatever survives mass assignment names a column of the table |
| CepModel.FilterKeepsColumns | app/Models/Cep.php:12-26 | mass assignment changes no column value a write would make |
| CepModel.FillFilterAgrees | app/Models/Cep.php:12-26 | two attribute maps that agree on the whitelisted keys fill the same |
| CepModel.FindFrom | app/Http/Controllers/CepController.php:21 | the search from a position returns the first row at or after it whose `cep` equals the key, and none when no such row exists |
| CepModel.FindByCep | app/Http/Controllers/CepController.php:21 | `where('cep', …)->first()` returns the first row with that exact `cep`, or none exactly when no row has it |
| CepModel.FindByCepUnique | app/Http/Controllers/CepController.php:21 | with unique `cep`s, the lookup returns the one row that holds the key |
| CepModel.CreateFailure | app/Http/Controllers/CepController.php:54 | on the create path a unique violation becomes the failed repeated lookup (`NoQueryResults`) and every other refusal propagates unchanged |
| CepModel.Upsert | app/Http/Controllers/CepController.php:54 | a refused `updateOrCreate` leaves the table unchanged, an accepted one returns a row of the new table, and `NoQueryResults` is reported only when no row holds the key |
| CepModel.UpsertUpdatesInPlace | app/Http/Controllers/CepController.php:54 | when a row holds the key, that row is updated in place with the whitelisted values: same id, same table size, other rows unchanged |
| CepModel.Merged | app/Http/Controllers/CepController.php:54 | the created row takes its `cep` from the values if given, else from the key, and every other column from the values |
| CepModel.UpsertInserts | app/Http/Controllers/CepController.php:54 | when no row holds the key, `updateOrCreate` is an insert of the filtered key-plus-values map |
| CepModel.UpsertCreatesOne | app/Http/Controllers/CepController.php:54 | when no row holds the key, exactly one row is appended under the next id, with `cep` from the values or the key and other columns from the values or NULL |
| CepModel.UpsertWritesGivenCep | app/Http/Controllers/CepController.php:54 | an accepted upsert whose values carry a `cep` stores that `cep`, and the returned row is in the table |
| CepModel.EmptyTableAcceptsAnyCep | app/Http/Controllers/CepController.php:54 | on an empty table every upsert that ends with a non-NULL `cep` is accepted |
| CepModel.UpsertGrowsByAtMostOne | app/Http/Controllers/CepController.php:54 | an upsert adds at most one row and never removes one |
| CepModel.UpsertKeepsValid | app/Http/Controllers/CepController.php:54 | an upsert keeps `cep` unique and the ids distinct |
| CepModel.UpsertIgnoresUnfillable | app/Models/Cep.php:12-26 | extra keys outside `$fillable` do not change what an upsert does |
| CepModel.UpsertRejectsDuplicateCep | app/Http/Controllers/CepController.php:54 | values whose `cep` another row already holds write nothing. On the update path the unique violation propagates; on the create path the repeated lookup by the key finds no row |
| CepModel.UpsertRepeatIsRejected | app/Http/Controllers/CepController.php:54 | repeating a created upsert whose `cep` differs from its key hits the unique index, and the repeated lookup by the key finds no row; nothing is written |
| CepModel.CepStore.Valid | database/migrations/2025_05_09_021355_create_ceps_table.php:15-16 | the store's rows and next id form a valid table (`ValidTable`) |
| CepModel.CepStore.constructor | database/migrations/2025_05_09_021355_create_ceps_table.php:14-30 | a new table is empty, valid, and numbers its first row 1 |
| CepModel.CepStore.UpdateOrCreate | app/Http/Controllers/CepController.php:54 | changing the rows in place gives the reply and the new table of `Upsert`, and keeps the table valid |
| CepController.IsDigit | app/Http/Controllers/CepController.php:19 | `\d` without the Unicode flag: an ASCII digit `0`–`9` |
| CepController.MatchAt | app/Http/Controllers/CepController.php:19 | the pattern `(\d{5})(\d{3})` matches at a position exactly when eight digits start there |
| CepController.Format | app/Http/Controllers/CepController.php:19 | the replacement scans left to right: where the pattern matches it emits five digits, a hyphen and three digits and resumes after the eight; elsewhere it copies one character. The lemmas below state its properties |
| CepController.FormatEightDigits | app/Http/Controllers/CepController.php:19 | exactly eight digits become the first five, a hyphen and the last three |
| CepController.FormatExample | app/Http/Controllers/CepController.php:19 | `01001000` becomes `01001-000` |
| CepController.FormatOnlyInsertsHyphens | app/Http/Controllers/CepController.php:19 | the replacement only inserts hyphens: with hyphens removed, output and input are equal |
| CepController.FormatLength | app/Http/Controllers/CepController.php:19 | the output is never shorter than the input, and is strictly longer whenever the pattern matches |
| CepController.FormatNoMatch | app/Http/Controllers/CepController.php:19 | a string without eight digits in a row is returned unchanged |
| CepController.FormatFixedIff | app/Http/Controllers/CepController.php:19 | the output equals the input exactly when the pattern matches nowhere |
| CepController.FormatKeepsFormatted | app/Http/Controllers/CepController.php:19 | a code already in `NNNNN-NNN` shape is returned unchanged |
| CepController.FormatKeepsShort | app/Http/Controllers/CepController.php:19 | a string shorter than eight characters is returned unchanged |
| CepController.FormatNotIdempotent | app/Http/Controllers/CepController.php:19 | for thirteen digits, formatting the output again changes it |
| CepController.Status | app/Http/Controllers/CepController.php:24-35 | the status is 200 exactly when the reply is a record |
| CepController.ExternalUrl | app/Http/Controllers/CepController.php:38-44 | the URL starts with the base and carries the raw code, unformatted, after `/ws/` |
| CepController.CepData | app/Http/Controllers/CepController.php:46-52 | the stored attributes are the payload's keys plus `cep`, each payload value copied as it is, and `cep` defaulting to the raw input |
| CepController.BuildAttributes | app/Http/Controllers/CepController.php:48-52 | the `foreach` builds exactly the attribute map `CepData` describes |
| CepController.Inspection | app/Http/Controllers/CepController.php:17-36 | a 404 or a refused write leaves the table unchanged |
| CepController.InspectionCacheHit | app/Http/Controllers/CepController.php:19-25 | a row holding the formatted code is returned as it is, with no upstream request and no write, whatever the upstream would say |
| CepController.InspectionMissRequestsRaw | app/Http/Controllers/CepController.php:27 | on a miss the upstream is asked for `base/ws/raw/json/` with the raw, unformatted code |
| CepController.InspectionFailure | app/Http/Controllers/CepController.php:29-31 | a failed upstream answer gives 404 with `ZIP code not found or invalid` and writes nothing |
| CepController.InspectionMissStoresPayload | app/Http/Controllers/CepController.php:33-35 | a successful miss appends one row under the next id, with `cep` from the payload or the raw code and each other column from the payload or NULL, and returns that row |
| CepController.InspectionRepeatHits | app/Http/Controllers/CepController.php:17-36 | after a miss that stored the formatted code, asking again is a cache hit returning the same row with no upstream request |
| CepController.InspectionCreateConflict | app/Http/Controllers/CepController.php:33 | a miss whose payload `cep` another row holds is answered with the framework's 404 for a missing model after requesting the raw code, and nothing is written |
| CepController.CepDataColumns | app/Http/Controllers/CepController.php:46-52 | read column by column, the stored attributes are the payload's values, with `cep` from the payload or else the raw code |
| CepController.Answer | app/Http/Controllers/CepController.php:33-35 | the reply is the row exactly when the store succeeded, and a 500 exactly when a statement was refused and not caught |
| CepController.StoreCepData | app/Http/Controllers/CepController.php:46-55 | builds the attributes, then updates the store in place exactly as `Upsert` keyed on the raw code |
| CepController.Inspect | app/Http/Controllers/CepController.php:17-36 | runs against the store and yields the reply, the request and the new table of `Inspection` |
| CepController.ExistingCepIsReturned | tests/Feature/CepControllerTest.php:22-41 | a seeded `12345-678` is returned as stored, with `Rua Teste`, and the upstream is not asked |
| CepController.MissOnEmptyTableStores | tests/Feature/CepControllerTest.php:43-71 | on an empty table a fetched payload with a non-NULL `cep` is stored and returned |
| CepController.FetchedCepIsStored | tests/Feature/CepControllerTest.php:43-71 | an unseen `01001000` is requested raw, and the payload's `01001-000` and street are stored as the only row and returned |
| CepController.FailedCepIsNotFound | tests/Feature/CepControllerTest.php:73-86 | a failed answer for `00000000` is a 404 with the fixed message |
| UserModel.Ceps | app/Models/User.php:34-39 | a user's relation lists exactly the pivot rows of that user |
| UserModel.Users | app/Models/Cep.php:29-34 | a record's relation lists exactly the pivot rows of that record |
| UserModel.RelationsAgree | app/Models/Cep.php:29-34 | both relations read one table: user `u` has record `c` exactly when `c` has `u` |
| UserModel.IsFavoriteIn | app/Models/User.php:51-54 | `isFavorite`: some row of the user's `ceps` relation refers to the record |
| UserModel.IsFavoriteIffRow | app/Models/User.php:51-54 | `isFavorite` holds exactly when some pivot row joins the user and the record |
| UserModel.PairCount | app/Models/User.php:46-49 | the pair has no pivot rows exactly when the record is not a favourite |
| UserModel.Without | app/Models/User.php:46-49 | detaching keeps exactly the rows not joining the pair, and removes as many rows as the pair had |
| UserModel.CepsAppend | app/Models/User.php:41-44 | appending a pivot row extends only its user's relation, by that row |
| UserModel.AttachEffect | app/Models/User.php:41-44 | attaching adds the record, with the given nickname, to the user's favourites (as the last one, in the model's insertion order), and leaves other users' favourites unchanged |
| UserModel.AttachDuplicates | app/Models/User.php:41-44 | attaching an existing favourite adds one more row for the pair |
| UserModel.DetachRemovesFavorite | app/Models/User.php:46-49 | after detaching, the record is not a favourite of the user |
| UserModel.DetachNotFavorite | app/Models/User.php:46-49 | detaching a record that is not a favourite changes nothing |
| UserModel.DetachOthersUnchanged | app/Models/User.php:46-49 | detaching leaves other users' favourites unchanged and keeps the user's other favourites (in the same insertion order, in the model) |
| UserModel.CepUserPivot.constructor | app/Models/User.php:36 | the pivot table starts empty |
| UserModel.CepUserPivot.Attach | app/Models/User.php:43 | `attach` appends one row with the nickname and both timestamps set to `now` |
| UserModel.CepUserPivot.Detach | app/Models/User.php:48 | `detach` leaves the rows without the pair and returns how many it deleted |
| UserModel.User.constructor | app/Models/User.php:11 | a user is created with the given key |
| UserModel.User.IsFavorite | app/Models/User.php:51-54 | `isFavorite` for this user reads the pivot table through `IsFavoriteIn` |
| UserModel.User.CepsOf | app/Models/User.php:34-39 | `ceps` lists exactly the pivot rows of this user |
| UserModel.User.AddToFavorites | app/Models/User.php:41-44 | appends the pivot row for the record's id with the nickname, after which the record is a favourite |
| UserModel.User.RemoveFromFavorites | app/Models/User.php:46-49 | removes every pivot row for the record's id and returns their number, after which the record is not a favourite |

## Left out

- `CepController::index` renders an Inertia page. It has no logic to model.
- The HTTP client, the `env('CEP_API_URI')` read and the JSON decoding are I/O. Their results are the parameters `upstream` and `base`.
- JSON payload values that are not strings or null, such as numbers or nested objects, are not modelled. Every payload value is a string or NULL.
- The string comparison of the database is not modelled. Equality of `cep` is exact; collations that fold case or trailing spaces are not captured.
- The `created_at`/`updated_at` columns of `ceps` and Eloquent's dirty tracking, which skips an UPDATE that changes nothing, are not modelled. The returned row carries no timestamps.
- The JSON serialisation of a `Cep` model and of the error reply is not modelled. A reply is the row, a message, or the refusal.
- The race that `createOrFirst` exists for is left out. Another request inserting the same key between the lookup and the insert would let the repeated lookup find that row. In a sequential model that never happens, and the repeated lookup always finds nothing.
- Concurrency between requests is left out. Each operation runs alone on the table.
- The schema of `cep_user_pivot` is not part of this model. No uniqueness of the pair is assumed, which matches `attach` inserting unconditionally.
- The migration's `down()` drops the table. It is not modelled.
- The `User` model's `$fillable`, `$hidden` and `casts`, authentication and Sanctum tokens are not modelled. They do not touch CEPs or favourites.
- The caching of a loaded relation is left out. `isFavorite` reads `ceps` as a property, which Eloquent may have loaded earlier; the model always reads the current pivot table.
- `routes/api.php` routes `/favorite/{cep}` and `/my-list` to `CepController::addToFavorites` and `CepController::myList`. The controller has no such methods, so there is nothing to model for them.
- Pagination of a favourites list, a 409 reply for a duplicate favourite, and validation of the input code or the nickname have no code behind them. They are not modelled.
- The upstream call has no outcome for an exception. `Http::get` throwing a connection error is not caught, so the reply is a 500. A 2xx body that is not valid JSON, or that is a JSON scalar, makes the `foreach` of `storeCepData` fail, and the reply is a 500. A JSON list behaves as `Fetched(map[])`, because its integer keys are not fillable. `Upstream` is a failed response or a decoded object only.
- `string` columns are VARCHAR(255) in the migration. The model's strings are unbounded, so a database in strict mode refusing a longer value (a 500, nothing written) is not modelled.
- UserModel.User.AddToFavorites: the record is a `Row`, whose id always exists. Unsaved records are not modelled. Their id is NULL, and `attach(null, …)` inserts nothing.
- UserModel.User.RemoveFromFavorites: the record is a `Row`, whose id always exists. Unsaved records are not modelled. Their id is NULL, and `detach(null)` deletes every favourite of the user.
- The `ceps` and `users` relations are modelled as the user's or the record's pivot rows. The framework returns `Cep` or `User` models joined to those rows, but no record or user is ever deleted here, so every pivot row has a model to join.
- The order of the `ceps` and `users` relations is not modelled. The relations have no `orderBy`, so the database may return the joined rows in any order. The model lists them in pivot insertion order. The order parts of `UserModel.AttachEffect` (the new favourite comes last) and `UserModel.DetachOthersUnchanged` (the other favourites keep their order) hold for that model order only. Their membership parts hold whatever the order.
