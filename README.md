# Blueprints REST API — a verified model of the store and the controller

A *blueprint* is a named drawing: an author, a name and an ordered list of 2D points.
The service keeps blueprints in two relational tables behind a REST API:

- `blueprints(id, author, name)`: `id` is generated and the pair `(author, name)` is unique.
- `points(x, y, point_order, blueprint_id)`: `point_order` is the drawing position of a point.

This project models three parts of that service in Dafny:

- the PostgreSQL adapter `PostgresBlueprintPersistence`;
- the response envelope `ApiResponse` with its factories;
- the controller `BlueprintsAPIController`, which maps each store outcome to an HTTP status and an envelope.

Module layout:

- `Wrappers`: `Option`, `Result` (a value or a checked exception) and `Outcome` (a `void` call that may throw).
- `Domain`: the value objects `Point` and `Blueprint`.
- `Dto`: `ApiResponse` and its seven factories.
- `Schema`: the row types and the `Tables` value. Each SQL statement the adapter issues is a function over the tables:
  - `FindRow` for `WHERE author = ? AND name = ?`;
  - `CountKey` for `COUNT(*)`;
  - `SelectByAuthor`;
  - `PointsWithId` for `WHERE blueprint_id = ?`;
  - `SortByOrder`, an insertion sort, for `ORDER BY point_order`;
  - `MaxPointOrder` for `MAX(point_order)`;
  - `MapRows` for the row mapper;
  - `NumberedRows` for the rows that `saveBlueprint` inserts.
- `Persistence`: the store.
  - The database invariant `WellFormed` holds four facts. Keys are unique. Ids are issued by an increasing sequence. Every point row refers to a blueprint row. Each blueprint's `point_order` values are exactly `0..n-1`.
  - `Stored(t, author, name)` is the abstraction: the points `getBlueprint` would return.
  - `Save` and `AppendPoint` are transition functions returning the outcome and the new tables.
  - Lemmas show that both transitions preserve `WellFormed` and that reads after writes return what was written.
  - The class `PostgresBlueprintPersistence` has the two tables and the id counter as fields. Its methods perform the statements step by step and are proved equal to the transition functions.
- `Controllers`:
  - One response function per handler, each proved to keep the HTTP status equal to the envelope's `code`.
  - A handler function per endpoint over the database.
  - Lemmas about the API's observable behaviour.
  - The class `BlueprintsApiController`, whose methods call the store object.

The service layer only delegates to the store. So the controller holds the store directly.

`saveBlueprint` runs the blueprint INSERT and the point INSERTs as separate statements, with no transaction of its own. The model follows that statement order. It has no failing statements, so a partly finished save cannot occur in it (see "Left out").

## Model


| member | source | states |
|---|---|---|
| Dto.Success | src/main/java/edu/eci/arsw/blueprints/dto/ApiResponse.java:12-14 | code 200, message "OK", the given data; a 2xx code |
| Dto.Created | src/main/java/edu/eci/arsw/blueprints/dto/ApiResponse.java:16-18 | code 201, message "Created", the given data; a 2xx code |
| Dto.Accepted | src/main/java/edu/eci/arsw/blueprints/dto/ApiResponse.java:20-22 | code 202, message "Accepted", null data |
| Dto.BadRequest | src/main/java/edu/eci/arsw/blueprints/dto/ApiResponse.java:24-26 | code 400 (a 4xx), the given message, null data |
| Dto.NotFound | src/main/java/edu/eci/arsw/blueprints/dto/ApiResponse.java:28-30 | code 404 (a 4xx), the given message, null data |
| Dto.InternalError | src/main/java/edu/eci/arsw/blueprints/dto/ApiResponse.java:32-34 | code 500 (a 5xx), the given message, null data |
| Dto.Error | src/main/java/edu/eci/arsw/blueprints/dto/ApiResponse.java:36-38 | exactly the given code and message, null data |
| Dto.ErrorFactoriesAreInstancesOfError | src/main/java/edu/eci/arsw/blueprints/dto/ApiResponse.java:24-38 | badRequest, notFound and internalError equal error(400/404/500, message) |
| Dto.OnlySuccessAndCreatedCarryData | src/main/java/edu/eci/arsw/blueprints/dto/ApiResponse.java:12-38 | only success and created carry a payload; the other five factories have null data |
| Schema.FindRow | src/main/java/edu/eci/arsw/blueprints/persistence/PostgresBlueprintPersistence.java:99-102 | a found index is in range and matches author and name; none is found exactly when no row matches |
| Schema.FindRowAppend | src/main/java/edu/eci/arsw/blueprints/persistence/PostgresBlueprintPersistence.java:61-72 | after an INSERT, a lookup finds the inserted row if its key matches, and otherwise whatever it found before |
| Schema.CountKey | src/main/java/edu/eci/arsw/blueprints/persistence/PostgresBlueprintPersistence.java:51-54 | the count is positive exactly when a row with that key exists |
| Schema.SelectByAuthor | src/main/java/edu/eci/arsw/blueprints/persistence/PostgresBlueprintPersistence.java:132-133 | a row is selected exactly when it is in the table and has that author |
| Schema.PointsWithId | src/main/java/edu/eci/arsw/blueprints/persistence/PostgresBlueprintPersistence.java:108-111 | a point row is selected exactly when it is in the table and belongs to that blueprint |
| Schema.PointsWithIdConcat | src/main/java/edu/eci/arsw/blueprints/persistence/PostgresBlueprintPersistence.java:80-89 | selecting from two concatenated tables concatenates the two selections |
| Schema.InsertByOrder | src/main/java/edu/eci/arsw/blueprints/persistence/PostgresBlueprintPersistence.java:108-109 | inserting into a sorted run keeps it sorted by point_order and adds exactly that row to the multiset |
| Schema.SortByOrder | src/main/java/edu/eci/arsw/blueprints/persistence/PostgresBlueprintPersistence.java:108-109 | ORDER BY point_order returns a permutation of its input, sorted by key |
| Schema.SortByOrderOfIncreasing | src/main/java/edu/eci/arsw/blueprints/persistence/PostgresBlueprintPersistence.java:108-109 | rows already in strictly increasing key order are returned unchanged |
| Schema.SortByOrderAppendLargest | src/main/java/edu/eci/arsw/blueprints/persistence/PostgresBlueprintPersistence.java:206-212 | a row whose key is at least every existing key is read back last |
| Schema.MaxPointOrder | src/main/java/edu/eci/arsw/blueprints/persistence/PostgresBlueprintPersistence.java:202-204 | NULL exactly for no rows; otherwise an upper bound of every key that some row attains |
| Schema.MapRows | src/main/java/edu/eci/arsw/blueprints/persistence/PostgresBlueprintPersistence.java:227-234 | the row mapper keeps x and y of each row, in row order, one point per row |
| Schema.NumberedRows | src/main/java/edu/eci/arsw/blueprints/persistence/PostgresBlueprintPersistence.java:80-89 | point i of the blueprint becomes a row with point_order = i and the new blueprint id |
| Schema.NumberedRowsReadBack | src/main/java/edu/eci/arsw/blueprints/persistence/PostgresBlueprintPersistence.java:80-89 | the numbered rows, sorted and mapped, give back the saved points in their original order |
| Persistence.ReadBlueprint | src/main/java/edu/eci/arsw/blueprints/persistence/PostgresBlueprintPersistence.java:96-123 | getBlueprint fails exactly when no row has that key, with message "Blueprint not found: author/name"; on success the blueprint has the requested author and name |
| Persistence.ReadByAuthor | src/main/java/edu/eci/arsw/blueprints/persistence/PostgresBlueprintPersistence.java:128-156 | getBlueprintsByAuthor fails exactly when the author has no row, with message "No blueprints for author: author"; on success the set is non-empty |
| Persistence.AuthorStoredMembership | src/main/java/edu/eci/arsw/blueprints/persistence/PostgresBlueprintPersistence.java:140-153 | a blueprint is in the author's set exactly when it has that author and getBlueprint returns its points |
| Persistence.AllStoredMembership | src/main/java/edu/eci/arsw/blueprints/persistence/PostgresBlueprintPersistence.java:161-184 | a blueprint is in getAllBlueprints exactly when getBlueprint returns its points |
| Persistence.Save | src/main/java/edu/eci/arsw/blueprints/persistence/PostgresBlueprintPersistence.java:47-90 | saveBlueprint fails exactly when the key is already stored; a failure leaves both tables unchanged and carries "Blueprint already exists: author/name" |
| Persistence.SaveInsertsRows | src/main/java/edu/eci/arsw/blueprints/persistence/PostgresBlueprintPersistence.java:61-89 | a successful save appends one blueprint row whose id no existing row has, then the numbered point rows behind the existing ones, and advances the id sequence |
| Persistence.InsertKeepsUniqueKeys | src/main/java/edu/eci/arsw/blueprints/persistence/PostgresBlueprintPersistence.java:51-72 | inserting a key that no row has keeps (author, name) unique |
| Persistence.SavePreservesWellFormed | src/main/java/edu/eci/arsw/blueprints/persistence/PostgresBlueprintPersistence.java:47-90 | save keeps unique keys, issued ids, point-to-blueprint references and per-blueprint keys 0..n-1 |
| Persistence.SaveThenGet | src/main/java/edu/eci/arsw/blueprints/persistence/PostgresBlueprintPersistence.java:80-115 | after a successful save, getBlueprint returns the saved blueprint with the same points in the same order, and every other blueprint reads as before |
| Persistence.SecondSaveIsRejected | src/main/java/edu/eci/arsw/blueprints/persistence/PostgresBlueprintPersistence.java:51-58 | saving the same (author, name) again fails with the duplicate message, changes nothing, and the first blueprint still reads back |
| Persistence.NextOrder | src/main/java/edu/eci/arsw/blueprints/persistence/PostgresBlueprintPersistence.java:202-208 | the new key COALESCE(MAX, -1) + 1 is larger than every existing key of the blueprint |
| Persistence.NextOrderIsCount | src/main/java/edu/eci/arsw/blueprints/persistence/PostgresBlueprintPersistence.java:202-208 | when the blueprint's keys are 0..n-1, the new key is n: max + 1, or 0 for a blueprint without points |
| Persistence.AppendPoint | src/main/java/edu/eci/arsw/blueprints/persistence/PostgresBlueprintPersistence.java:191-219 | addPoint fails exactly when no row has that key, leaving the tables unchanged with "Blueprint not found: author/name"; on success the blueprints table and the id sequence are unchanged and the points table gains exactly one row |
| Persistence.AppendPointInsertsRow | src/main/java/edu/eci/arsw/blueprints/persistence/PostgresBlueprintPersistence.java:195-212 | a successful addPoint keeps every existing point row and appends one row (x, y, id of the matching blueprint) whose key is larger than every key that blueprint already has |
| Persistence.AppendPreservesWellFormed | src/main/java/edu/eci/arsw/blueprints/persistence/PostgresBlueprintPersistence.java:191-219 | addPoint keeps the database invariant, in particular keys 0..n-1 per blueprint |
| Persistence.AppendThenGet | src/main/java/edu/eci/arsw/blueprints/persistence/PostgresBlueprintPersistence.java:206-212 | after addPoint, getBlueprint returns the old points followed by the new one; every other blueprint reads as before |
| Persistence.AppendAllPreservesWellFormed | src/main/java/edu/eci/arsw/blueprints/persistence/PostgresBlueprintPersistence.java:191-219 | any number of addPoint calls keep the database invariant |
| Persistence.AppendAllThenGet | src/main/java/edu/eci/arsw/blueprints/persistence/PostgresBlueprintPersistence.java:191-219 | after any number of addPoint calls on a stored blueprint, it reads back as the old points followed by the new ones in call order |
| Persistence.EmptyDatabaseIsWellFormed | src/main/java/edu/eci/arsw/blueprints/persistence/PostgresBlueprintPersistence.java:35-37 | an empty database satisfies the invariant and stores nothing |
| Persistence.PostgresBlueprintPersistence.constructor | src/main/java/edu/eci/arsw/blueprints/persistence/PostgresBlueprintPersistence.java:35-37 | a store over a consistent database starts with exactly that database |
| Persistence.PostgresBlueprintPersistence.SaveBlueprint | src/main/java/edu/eci/arsw/blueprints/persistence/PostgresBlueprintPersistence.java:47-90 | the check-then-insert statements, with the point loop, produce exactly the outcome and the tables of `Save`, and keep the invariant |
| Persistence.PostgresBlueprintPersistence.GetBlueprint | src/main/java/edu/eci/arsw/blueprints/persistence/PostgresBlueprintPersistence.java:96-123 | returns exactly `ReadBlueprint` of the current tables |
| Persistence.PostgresBlueprintPersistence.GetBlueprintsByAuthor | src/main/java/edu/eci/arsw/blueprints/persistence/PostgresBlueprintPersistence.java:128-156 | the loop over the author's rows builds exactly `ReadByAuthor` of the current tables |
| Persistence.PostgresBlueprintPersistence.GetAllBlueprints | src/main/java/edu/eci/arsw/blueprints/persistence/PostgresBlueprintPersistence.java:161-184 | the loop over all rows builds exactly the set of every stored blueprint |
| Persistence.PostgresBlueprintPersistence.AddPoint | src/main/java/edu/eci/arsw/blueprints/persistence/PostgresBlueprintPersistence.java:191-219 | the lookup, MAX and INSERT produce exactly the outcome and the tables of `AppendPoint`, and keep the invariant |
| Controllers.GetAllResponse | src/main/java/edu/eci/arsw/blueprints/controllers/BlueprintsAPIController.java:49-53 | 200 with message "OK" carrying the set; the status equals the envelope code |
| Controllers.ByAuthorResponse | src/main/java/edu/eci/arsw/blueprints/controllers/BlueprintsAPIController.java:64-73 | 200 with the set exactly on success; otherwise 404 with the exception's message and no data; the status equals the code |
| Controllers.ByAuthorAndNameResponse | src/main/java/edu/eci/arsw/blueprints/controllers/BlueprintsAPIController.java:84-93 | 200 with the blueprint exactly on success; otherwise 404 with the exception's message and no data; the status equals the code |
| Controllers.AddResponse | src/main/java/edu/eci/arsw/blueprints/controllers/BlueprintsAPIController.java:104-116 | 201 with the created blueprint exactly when the save passed; otherwise 400 with the exception's message; the status equals the code |
| Controllers.AddPointResponse | src/main/java/edu/eci/arsw/blueprints/controllers/BlueprintsAPIController.java:127-139 | 202 "Accepted" with no data exactly when the append passed; otherwise 404 with the exception's message; the status equals the code |
| Controllers.HandleGetAll | src/main/java/edu/eci/arsw/blueprints/controllers/BlueprintsAPIController.java:49-53 | GET /blueprints always answers 200 with a payload |
| Controllers.HandleByAuthor | src/main/java/edu/eci/arsw/blueprints/controllers/BlueprintsAPIController.java:64-73 | 404 exactly when no row has that author, otherwise 200 |
| Controllers.HandleByAuthorAndName | src/main/java/edu/eci/arsw/blueprints/controllers/BlueprintsAPIController.java:84-93 | 200 exactly when the blueprint is stored, 404 exactly when it is not |
| Controllers.HandleAdd | src/main/java/edu/eci/arsw/blueprints/controllers/BlueprintsAPIController.java:104-116 | 201 exactly when (author, name) is new, 400 exactly when it is taken |
| Controllers.HandleAddPoint | src/main/java/edu/eci/arsw/blueprints/controllers/BlueprintsAPIController.java:127-139 | 202 exactly when the blueprint is stored, 404 exactly when it is not |
| Controllers.GetAllListsEveryStored | src/main/java/edu/eci/arsw/blueprints/controllers/BlueprintsAPIController.java:49-53 | GET /blueprints answers 200, and its set holds exactly the stored blueprints with their stored points |
| Controllers.ByAuthorAnswers | src/main/java/edu/eci/arsw/blueprints/controllers/BlueprintsAPIController.java:64-73 | 404 with the no-blueprints message exactly when the author stores nothing; on 200 the set holds exactly that author's stored blueprints |
| Controllers.ByAuthorAndNameAnswers | src/main/java/edu/eci/arsw/blueprints/controllers/BlueprintsAPIController.java:84-93 | a stored blueprint comes back with 200 and its stored points; a missing one gives 404 with "Blueprint not found: author/name" |
| Controllers.AddNewThenGet | src/main/java/edu/eci/arsw/blueprints/controllers/BlueprintsAPIController.java:104-110 | POST of a new blueprint answers 201 with it and keeps the invariant; a following GET answers 200 "OK" with exactly that blueprint |
| Controllers.AddDuplicateIsRejected | src/main/java/edu/eci/arsw/blueprints/controllers/BlueprintsAPIController.java:111-115 | POST of an existing (author, name) answers 400 with "Blueprint already exists: author/name" and leaves the database unchanged |
| Controllers.AddPointThenGet | src/main/java/edu/eci/arsw/blueprints/controllers/BlueprintsAPIController.java:130-134 | PUT of a point on a stored blueprint answers 202 "Accepted"; a following GET shows the point appended at the end |
| Controllers.AddPointToMissingIsRejected | src/main/java/edu/eci/arsw/blueprints/controllers/BlueprintsAPIController.java:135-138 | PUT on an unknown blueprint answers 404 with the not-found message and leaves the database unchanged |
| Controllers.CreateThenExtend | src/main/java/edu/eci/arsw/blueprints/controllers/BlueprintsAPIController.java:104-139 | POST then PUT: 202, GET returns the posted points followed by the new one, and re-posting the request answers 400 |
| Controllers.BlueprintsApiController.constructor | src/main/java/edu/eci/arsw/blueprints/controllers/BlueprintsAPIController.java:38 | the controller holds the given store |
| Controllers.BlueprintsApiController.GetAll | src/main/java/edu/eci/arsw/blueprints/controllers/BlueprintsAPIController.java:49-53 | answers exactly `HandleGetAll` of the store's tables |
| Controllers.BlueprintsApiController.ByAuthor | src/main/java/edu/eci/arsw/blueprints/controllers/BlueprintsAPIController.java:64-73 | answers exactly `HandleByAuthor` of the store's tables |
| Controllers.BlueprintsApiController.ByAuthorAndName | src/main/java/edu/eci/arsw/blueprints/controllers/BlueprintsAPIController.java:84-93 | answers exactly `HandleByAuthorAndName` of the store's tables |
| Controllers.BlueprintsApiController.Add | src/main/java/edu/eci/arsw/blueprints/controllers/BlueprintsAPIController.java:104-116 | for a request with non-blank author and name, answers and updates the store exactly as `HandleAdd`, keeping the invariant |
| Controllers.BlueprintsApiController.AddPoint | src/main/java/edu/eci/arsw/blueprints/controllers/BlueprintsAPIController.java:127-139 | answers and updates the store exactly as `HandleAddPoint`, keeping the invariant |

## Left out

- `deleteBlueprint`: the port declares it (src/main/java/edu/eci/arsw/blueprints/persistence/BlueprintPersistence.java:19-20), but the adapter has no implementation of it.
- JDBC mechanics (prepared statements, result maps, key holders) are not modelled. The generated `BIGSERIAL` key is the counter `nextId`, which starts at 1 in an empty database. A null generated key is not modelled.
- The `id` column of the points table is not modelled, because no statement reads it.
- Transactions are not modelled. The model has no failing statements, so it cannot show the orphaned blueprint row that a failure between the two inserts of a save would leave.
- Concurrency is not modelled: check-then-insert on save, and the max-order race between two `addPoint` calls. Every request runs alone against the tables.
- Java `int` and `long` overflow is not modelled. Coordinates, `point_order` and ids are unbounded integers.
- `IncorrectResultSizeDataAccessException` on duplicate keys is not modelled. The invariant keeps (author, name) unique, so a lookup matches at most one row.
- Ties in `ORDER BY point_order` are not modelled. The invariant keeps each blueprint's keys distinct, so no ties occur.
- Null request bodies, null point lists and null fields are not modelled.
- Spring routing, JSON (de)serialization, dependency injection and the OpenAPI configuration are not modelled.
- Controllers.BlueprintsApiController.Add: requires a non-blank author and name instead of modelling the framework's 400 answer to a request that fails `@NotBlank`. Blank means empty or only characters at or below U+0020; other Unicode whitespace is not treated as blank.
- `BlueprintsServices` is not part of this model. It only delegates, so the controller calls the store directly.
- Store failures other than the two checked exceptions (connectivity, unclassified SQL errors) are not modelled, so no handler produces the 500 envelope. The `internalError` factory is still modelled and proved.
- `HashSet` results are modelled as mathematical sets of `Blueprint` values. Value equality on author, name and points stands in for Java's `equals`/`hashCode`.
