# User service: a model of its storage protocols

The user service keeps driver profiles in a Postgres table with encrypted columns, vehicles in a second
table, and recently read profiles in a Redis cache with a five-minute lifetime. Its operations are short
sequences of SQL statements and Redis commands with no transaction around them. This project models
those sequences and proves what survives when many calls run at once, and what a single call does
to the tables.

`dafny verify dfyconfig.toml` checks everything (Dafny 4.11).

## How the model is built

- **Statements.** `Users` and `Vehicles` hold the two tables as callers see them, with the schema's keys as
  subset types, and each SQL statement as one function. `Encryption` holds the stored form of the user
  table, with nullable ciphertext columns and explicit randomness, and maps it onto the plaintext one.
- **Steps.** `Service.Exec` runs one statement or one Redis command of a use case; a program counter
  names the next one. `Traces` lets any number of calls take turns, with a clock, generated ids,
  cache commands that may fail and entries that may vanish.
- **Concurrent results.** `Linearizability`, `Versions`, `Deletion`, `Staleness`, `Freshness` and
  `VehicleSafety` are about every trace.
- **Columns.** `Outcomes` says what each indivisible call answers and stores in terms of the request's own fields;
  `Requests` says which requests are accepted.
- **Calls that do not overlap.** `Sequential` iterates the same steps without interruption.
- **Objects.** `UserRepository`, `VehicleRepository`, `UserUsecase`, `MockCache` and the two fakes are classes
  whose methods follow the Go code; their contracts give the new state in terms of the functions above. The
  repositories' `Others` stands for the statements other clients may run in between; with `quiet` nobody else runs.
- **Listings.** `OrderBy` says which sequences of ids answer an ORDER BY; `Pagination` is about pages, and
  `Walks` about fetching them while a concurrent run goes on.

Clocks, generated ids, randomness, cache failures, the order of rows with equal sort keys, the mail
parser and the JSON codec are parameters.

## Where the code and its documents differ

- docs/features/04-profile-cache.md:38 promises that the read after UpdateUser returns the new value. A reader
  that selected before the write can still store the old row after the DEL (`Staleness.StalenessIsReal`);
  `Freshness.FreshExactly` says exactly when it cannot.
- The same document and docs/architecture/low-level-design.md:119-120 name the cache key `user:profile:<id>` and
  an invalidation by UpsertDriver. The code's key is `user:` followed by the id, and only UpdateUser and
  DeleteUser send a DEL.
- internal/user/repository/postgres/soft_delete_user.go:31 takes a row found by EXISTS to be already deleted. It can
  also be a row inserted between the two statements, which stays ACTIVE although success is reported;
  `Deletion.DeleteTruthfulExactly` gives the condition. It takes a caller that names a random UUID before
  the database generates it (`Linearizability.HollowNamesUnborn`).
- A driver is said to have at most one default vehicle. `Register` clears no other default;
  `Vehicles.OneDefaultExactly` says when the claim survives.
- The comment on `List` calls its total unfiltered; the code counts with the status filter, as does the model.
- `UpsertDriverRequest` says the name is updated on later calls, and the operation's name speaks of the phone
  number; the code returns the existing row unchanged and looks it up by external id.

## Model

| member | source | states |
|---|---|---|
| Linearizability.GetOrCreateStep | internal/user/repository/postgres/upsert.go:16-40 | each of the three statements (SELECT that hits, INSERT that wins, re-SELECT after a lost race) either answers exactly as an indivisible get-or-create on the same table, always with a row, or changes nothing |
| Linearizability.RefetchFinds | internal/user/usecase/create_user.go:35-39 | after a unique violation the re-SELECT finds the row, in every interleaving |
| Linearizability.CheckingSeesDeleted | internal/user/repository/postgres/soft_delete_user.go:24-32 | a delete whose id was not generated since it began is looking at a DELETED row or at none when it runs EXISTS |
| Linearizability.ExecIsAtomic | internal/user/usecase/create_user.go:17-43 | one statement of a writing call either gives the specification's answer and table or leaves the user table alone |
| Linearizability.CommitIsAtomic | internal/user/usecase/type.go:12-25 | in every run, whatever ids the deletes name, an event that fixes an answer is one whole indivisible call exactly when it is not a hollow delete (success reported over a live row, nothing changed); all other events leave the user table alone |
| Linearizability.HollowNamesUnborn | internal/user/repository/postgres/soft_delete_user.go:24-32 | a hollow delete named an id that the database had not yet generated when the call began, and that appeared before its EXISTS |
| Linearizability.LinearizableButForHollow | internal/user/usecase/type.go:12-25 | every run of CreateUser, UpsertDriver, UpdateUser and DeleteUser, without any condition, is one call after another, where a delete may also succeed without effect: same answers, same tables |
| Linearizability.LinearizableExactly | internal/user/usecase/type.go:12-25 | running the calls one after another explains a run at each of its moments exactly when no delete so far was hollow |
| Linearizability.Linearizable | internal/user/usecase/type.go:12-25 | so a run in which no id is generated while a delete naming it is under way is explained by a sequential one: same answers, same final table |
| Linearizability.CommitPoint | internal/user/usecase/type.go:12-25 | each answered call has exactly one place in that history, between its request and its answer, with the answer it gave |
| Linearizability.RealTimeOrder | internal/user/usecase/type.go:12-25 | a call answered before another begins comes first in the history |
| Linearizability.GetOrCreateAnswers | internal/user/repository/postgres/upsert.go:12-40 | a get-or-create fails only validation; otherwise it returns the one row of its external id, which stays for ever |
| Linearizability.OneProfilePerIdentity | internal/user/usecase/create_user.go:13-16 | two get-or-create calls of a run name the same internal id exactly when their external ids are equal |
| Traces.WaitFree | internal/user/repository/postgres/upsert.go:16-40 | however others interleave, a call's statements so far plus those it may still need never exceed its initial budget |
| Traces.AtMostThreeStatements | internal/user/repository/postgres/upsert.go:16-40 | no call runs more than three statements, after three it has answered, and until then its next statement is never blocked |
| Traces.UsersEvolve | internal/user/repository/postgres/soft_delete_user.go:11-12 | over any trace rows are never removed, keep identity and creation time, gain a version with each change and freeze once DELETED |
| Service.ExecProgress | internal/user/repository/postgres/upsert.go:16-40 | every statement strictly reduces the call's budget and changes the user table only in the allowed way |
| Versions.RowStep | internal/user/repository/postgres/update_user.go:18-31 | one event replaces exactly the columns a successful update's patch names, at its expected version, or marks the row DELETED, or leaves every column as it was |
| Versions.RowAccounting | internal/user/repository/postgres/update_user.go:14-43 | between any two moments each of name, phone and e-mail ends as the last non-empty text among the successful patches, else as it was, and the version counts those updates and the deletion |
| Versions.CreatedAt | internal/user/repository/postgres/create_user.go:21-35 | a row not there at the start was put there by an INSERT, each column as submitted, with version 1 |
| Versions.NoLostUpdates | internal/user/repository/postgres/update_user.go:14-43 | over its whole life each column of a row is the last non-empty text among its successful patches, else the inserted one; its version is 1 plus their number plus 1 if deleted |
| Versions.NoLostUpdatesSinceRequest | internal/user/usecase/create_user.go:26-32 | in a run each such row comes from the request of a CreateUser or UpsertDriver: ACTIVE, under the generated id, the columns asked for, and since then only its patches and its deletion |
| Versions.EveryVersionWasCurrent | internal/user/repository/postgres/update_user.go:25 | versions of a row grow without gaps |
| Versions.OneWinner | internal/user/repository/postgres/update_user.go:27-39 | at most one update per row and expected version succeeds in a run |
| Versions.ZeroNeverWins | data/init.sql:27 | versions start at 1, so an expected version of 0 or less never succeeds |
| Deletion.DeleteOfKnownId | internal/user/repository/postgres/soft_delete_user.go:13-34 | whatever others do, a delete of an id that exists at its start answers success only over a DELETED row |
| Deletion.DeleteOfUnknownIdCanLie | internal/user/repository/postgres/soft_delete_user.go:24-33 | for an id absent at the start there is a continuation in which the delete reports success and the row is ACTIVE |
| Deletion.DeleteTruthfulExactly | internal/user/repository/postgres/soft_delete_user.go:11-34 | success can be believed in every continuation exactly when the id exists as the call starts |
| Deletion.DeletedIsFinal | internal/user/repository/postgres/list_users.go:28-63 | a DELETED row never changes, every update conflicts, deletes are no-ops, get-or-create returns it, no listing or total includes it |
| Staleness.EntryOrigin | internal/user/usecase/get_user_by_id.go:28-36 | a cache entry is a row that was committed, and expires within five minutes and d of a moment it was current |
| Staleness.BoundedStaleness | internal/user/usecase/get_user_by_id.go:11-38 | even if any cache command is lost, a returned profile was the committed row no earlier than five minutes plus d before, d bounding SELECT to SET |
| Staleness.SettledRowIsRead | internal/user/usecase/get_user_by_id.go:11-38 | once a row has stayed unchanged for longer than five minutes plus d, every read answers it |
| Staleness.MissMeansAbsent | internal/user/usecase/get_user_by_id.go:28-31 | a failed read says not-found and the row was absent at that moment |
| Staleness.StalenessIsReal | internal/user/usecase/get_user_by_id.go:16-36 | the bound is met: a read begun long after a successful update and DEL returns the replaced row one tick below it |
| Freshness.StaysFresh | internal/user/usecase/update_user.go:25-28 | invalidated while no reader in flight holds an older row, entry and later reads stay at that version or newer |
| Freshness.StaleReaderUndoes | internal/user/usecase/get_user_by_id.go:32-36 | a reader in flight with an older row can store it again and a later read returns it |
| Freshness.FreshExactly | internal/user/usecase/get_user_by_id.go:16-36 | after an invalidation every continuation stays fresh exactly when no reader in flight holds an older row |
| Freshness.FreshAfterUpdate | internal/user/usecase/update_user.go:16-28 | after UpdateUser commits and its DEL arrives with no older reader in flight, entry and later reads show that version or newer |
| Freshness.FreshAfterDelete | internal/user/usecase/delete_user.go:7-15 | the same for the DEL of DeleteUser and the version the row has as it arrives |
| Freshness.DeletedIsRead | internal/user/usecase/delete_user.go:7-15 | if that row is DELETED, every read begun afterwards answers exactly the DELETED row |
| Sequential.CacheUnobservable | internal/user/usecase/get_user_by_id.go:17-38 | for calls that do not overlap and whose DELs succeed, answers and tables equal those of the use case built without a cache |
| Sequential.CacheNoticedExactly | internal/user/usecase/get_user_by_id.go:17-38 | from any moment on, no such calls can tell that there is a cache exactly when every entry still alive holds the current row |
| Sequential.LostDelNoticedExactly | internal/user/usecase/update_user.go:25-28 | an update or delete whose DEL is lost answers as without a cache; later calls can notice exactly when an entry of the row was there, had not expired, and the call changed the row |
| Sequential.RunAllKeepsKeyed | internal/user/usecase/get_user_by_id.go:18-36 | every entry stays under the key of the row it holds |
| Sequential.LostDelIsNoticed | internal/user/usecase/delete_user.go:11-13 | a smallest case: with a lost DEL the old row is read back |
| Sequential.SoloIsAtomic | internal/user/usecase/create_user.go:17-43 | the statements of a writing call run alone amount to the indivisible call |
| Sequential.SoloReadIsReadThrough | internal/user/usecase/get_user_by_id.go:17-38 | the statements of a read run alone amount to cache, else table, else not found, with the entry they leave |
| Sequential.SoloInvalidates | internal/user/usecase/update_user.go:16-28 | the statements of an update or delete run alone amount to the indivisible call, and the one key `user:<id>` leaves the cache exactly when the call succeeded and the DEL did |
| Sequential.SettledLater | internal/user/repository/postgres/update_user.go:27-39 | after a successful write and any calls since, the natural key still shows it was done |
| Sequential.RepeatHarmless | internal/user/usecase/create_user.go:13-42 | repeating, anywhere later, a write that succeeded changes no row and no other answer, and says what the repeat is told |
| Sequential.RepeatHarmlessWithCache | internal/user/usecase/delete_user.go:5-15 | the same with a cache whose DELs succeed |
| Encryption.ColumnRoundTrip | internal/user/repository/postgres/create_user.go:28-34 | an encrypted column reads back as written for any randomness; NULL is stored only for empty text, and whether it is cannot be noticed |
| Encryption.SelectsRefine | internal/user/repository/postgres/get_user_by_id.go:14-37 | both decrypting reads answer as the plaintext ones |
| Encryption.InsertRefines | internal/user/repository/postgres/create_user.go:20-51 | the encrypted INSERT means the plaintext one, conflict included, and a row decrypts to the columns submitted |
| Encryption.UpdateRefines | internal/user/repository/postgres/update_user.go:17-43 | the encrypted partial UPDATE means the plaintext one, conflict included, and decrypts to the patch's text in each column it names and the old text in the others |
| Encryption.EncryptedRunRefines | internal/user/repository/postgres/type.go:26-37 | any run of statements on the encrypted table answers as the plaintext run and ends in a table with the same meaning |
| UserRepositories.UserRepository.Create | internal/user/repository/postgres/create_user.go:20-51 | conflict and no change if the id or external id is there, else the row with each column as submitted, version 1, and nothing else changed |
| UserRepositories.UserRepository.GetByExternalID | internal/user/repository/postgres/get_user_by_id.go:20-24 | the row of an external id, DELETED or not, else not found |
| UserRepositories.UserRepository.Update | internal/user/repository/postgres/update_user.go:17-43 | conflict and no change unless the row is there, at the expected version and not DELETED; else each named column replaced, the others kept, version plus 1, no other row changed |
| UserRepositories.UserRepository.GetOrCreateByMSISDN | internal/user/repository/postgres/upsert.go:16-40 | with others running between its statements it takes effect in one piece at its last one: the row of the identity as it is, or a new one with the phone, the name or "Driver", and no e-mail |
| UserRepositories.UserRepository.SoftDelete | internal/user/repository/postgres/soft_delete_user.go:13-34 | with others running between its statements, a live row ends as it was but DELETED, one version on; an existing id gives success; not-found only if the id is absent |
| UserRepositories.UserRepository.List | internal/user/repository/postgres/list_users.go:15-69 | the rows from the offset on (a negative one is 0), at most the limit (none or negative is 50, more than 200 is 200), none DELETED, all of the requested status, newest first, each once, and the number of all such rows |
| UserUsecases.UserUsecase.CreateUser | internal/user/usecase/create_user.go:17-43 | validation error without effect; else, in one piece under interference, the row of the identity as it is or a new ACTIVE row with exactly the submitted columns; alone, the indivisible call |
| UserUsecases.UserUsecase.UpsertDriver | internal/user/usecase/upsert_driver.go:12-17 | the same for UpsertDriver, with "Driver" for a missing name and an empty e-mail |
| UserUsecases.UserUsecase.UpdateUser | internal/user/usecase/update_user.go:11-29 | validation error or conflict without effect, else each named column replaced and the others kept; `user:<id>` leaves the cache exactly when it succeeded and the DEL did |
| UserUsecases.UserUsecase.DeleteUser | internal/user/usecase/delete_user.go:7-15 | a live user ends as it was but DELETED, an existing one gives success, and `user:<id>` leaves the cache exactly when the call succeeded and the DEL did |
| UserUsecases.UserUsecase.GetUserByID | internal/user/usecase/get_user_by_id.go:17-38 | answer and cache of the read-through for every combination of failing GET, SET and codec; what it stores is the row answered, under `user:<id>`, for 300,000 milliseconds |
| UserUsecases.UserUsecase.RegisterVehicle | internal/user/usecase/register_vehicle.go:14-34 | with others running between the check and the insert, one upsert at its last statement: the answered and stored vehicle has the driver, type and default flag asked for and the normalised plate; the foreign key never rejects it |
| MockCaches.MockCache.Set | mock/redis/mock_cache.go:24-34 | stores texts and byte slices under the key, noting the expiry, ignores other values |
| MockCaches.MockCache.Get | mock/redis/mock_cache.go:36-44 | the text of a key that is present, whatever its age; with the flag that makes it stand for Redis, of one not expired |
| MockCaches.MockCache.SetNX | mock/redis/mock_cache.go:46-59 | sets exactly when the key is absent, or, standing for Redis, expired |
| MockCaches.MockCache.Del | mock/redis/mock_cache.go:61-68 | the loop removes exactly the given keys |
| Service.CacheKeyInjective | internal/user/usecase/get_user_by_id.go:18 | different ids have different cache keys |
| Outcomes.CreateOutcome | internal/user/usecase/create_user.go:17-43 | column by column, what the indivisible CreateUser answers and stores |
| Outcomes.UpsertOutcome | internal/user/repository/postgres/upsert.go:16-40 | the same for UpsertDriver |
| Outcomes.UpdateOutcome | internal/user/repository/postgres/update_user.go:17-43 | the same for UpdateUser, success exactly at the expected version of a row that is not DELETED |
| Outcomes.DeleteOutcome | internal/user/repository/postgres/soft_delete_user.go:13-34 | the same for DeleteUser |
| Outcomes.RegisterOutcome | internal/user/usecase/register_vehicle.go:14-34 | the same for RegisterVehicle, for a known and for a new plate |
| Requests.CreateAccepted | internal/user/model/validator.go:50-62 | accepted exactly when external id and name are not blank after trimming and phone and e-mail are empty or well formed |
| Requests.UpsertAccepted | internal/user/model/validator.go:75-87 | accepted exactly when the external id is not blank and the phone is a plus sign, a digit from 1 to 9 and 7 to 14 digits |
| Requests.UpdateAccepted | internal/user/model/validator.go:64-73 | accepted exactly when the id is not blank and phone and e-mail are empty or well formed |
| Requests.VehicleAccepted | internal/user/model/validator.go:90-106 | accepted exactly when the driver is not blank, the normalised plate is in the language and the type is CAR or MOTORCYCLE |
| Pagination.ListingIsNewestFirst | internal/user/repository/postgres/list_users.go:28-39 | the listing holds every listable row once, newest first, as many as the count |
| Pagination.ListAnswerExact | internal/user/repository/postgres/list_users.go:16-29 | the answer for any limit and offset, in numbers: from where, how many, which rows |
| Pagination.PagesPartition | internal/user/repository/postgres/list_users.go:16-38 | for any requested limit the answers at its steps concatenate to the listing and their lengths add up to the total |
| Pagination.SnapshotPages | internal/user/repository/postgres/list_users.go:16-68 | walked to the end, the pages of an unchanging table show every listable row exactly once, newest first, and as many as the total |
| Pagination.GrowthPrepends | internal/user/repository/postgres/list_users.go:35-38 | creating later users, and updating any, keeps the old listing as the tail of the new one |
| Pagination.WalkMissesNothing | internal/user/repository/postgres/list_users.go:16-55 | a walk by the effective limit until a short page sees every row listable at the start although users are created and updated between fetches |
| Walks.TraceGrows | internal/user/repository/postgres/update_user.go:17-31 | a stretch of a concurrent run without deletions, whose creations come at later times, is growth of that kind |
| Walks.WalkInRun | internal/user/repository/postgres/list_users.go:16-55 | so a walk inside such a run, with updates, creations and reads interleaved, misses no row listable at its first fetch |
| Pagination.DeletionHidesExactly | internal/user/repository/postgres/list_users.go:28-38 | if a row is deleted between two pages of a walk, an unseen row is missed by all later pages exactly when it was the next row and the deleted one stood before it |
| Pagination.DeletionCanHideARow | internal/user/repository/postgres/list_users.go:28-38 | a smallest case of such a walk |
| Pagination.InsertGrows | internal/user/repository/postgres/create_user.go:21-35 | Create with a later time is growth of that kind |
| OrderBy.AnswerUnique | internal/user/repository/postgres/list_users.go:35-38 | distinct sort keys leave the database one order |
| OrderBy.SortedMove | internal/user/repository/postgres/vehicle.go:44-48 | changing one row's sort key moves that row only |
| Vehicles.ReRegisterMovesOne | internal/user/repository/postgres/vehicle.go:24-64 | registering a known plate keeps id and creation time, leaves other vehicles and drivers alone, and moves only that vehicle in its driver's list |
| Vehicles.SamePlateSameRow | internal/user/repository/postgres/vehicle.go:26-31 | two registrations of a driver reach one row exactly when the stored plates agree |
| Vehicles.OneDefaultExactly | internal/user/model/vehicle.go:18-26 | a driver keeps at most one default exactly when the registered vehicle is not made default beside another |
| VehicleRepositories.VehicleRepository.Register | internal/user/repository/postgres/vehicle.go:24-40 | the caller gets a row with the driver, plate, type and default flag asked for; a known plate keeps its id and creation time, an unknown one gets the generated id or the constraint error; no other row changes |
| VehicleRepositories.VehicleRepository.ListByDriverID | internal/user/repository/postgres/vehicle.go:43-65 | exactly the driver's vehicles, each once, defaults first, then by creation |
| VehicleSafety.VehiclesSound | internal/user/usecase/register_vehicle.go:14-34 | in every interleaving each stored vehicle has a driver, a normalised plate of the language and a known kind, and a driver found by the check is there at the insert |
| VehicleSafety.RegistrationIsAtomic | internal/user/usecase/register_vehicle.go:19-33 | every registration answers as the indivisible one at its last statement, with a vehicle as asked for, which is the only row changed; the foreign key never rejects it |
| VehicleSafety.LastRegistrationStands | internal/user/repository/postgres/vehicle.go:26-31 | through any run a vehicle holds the type and default flag of its last accepted registration |
| VehicleSafety.VehiclesKeepIdentity | internal/user/repository/postgres/vehicle.go:26-31 | through any run a vehicle keeps id, driver, plate and creation time |
| VehicleSafety.SameRowExactly | internal/user/usecase/register_vehicle.go:24-29 | any two accepted registrations of a run were given one row exactly when their drivers are equal and their plates normalise alike |
| VehicleSafety.SameRowForSpellings | internal/user/usecase/register_vehicle.go:24-29 | for ASCII plates: they were given one row exactly when the drivers are equal and the plates differ in nothing but spaces and case |
| Plates.NormaliseIdempotent | internal/user/model/validator.go:95 | normalising twice is normalising once |
| Plates.NormaliseShape | internal/user/model/validator.go:95 | spaces go, letter number k becomes capital number k, every other ASCII character stays |
| Plates.SpellingExact | internal/user/model/validator.go:90-95 | two ASCII texts normalise alike exactly when they differ in nothing but spaces and case |
| Plates.NormaliseConcat | internal/user/model/validator.go:95 | normalisation works character by character |
| Plates.ScannerExact | internal/user/model/validator.go:14-17 | the one-pass scanner accepts exactly the texts that split into 1-2 letters, 1-4 digits and 0-3 letters, and reports the only such split |
| FakeVehicles.PutKeepsOrder | mock/repository/vehicle_repository_mock.go:35-52 | a registration keeps plates unique and the order of first registration with its ids |
| FakeVehicles.RegistrationsKeepOrder | mock/repository/vehicle_repository_mock.go:28-53 | over any run of registrations a driver's plates stay unique, in first-registration order, each with its first id |
| FakeVehicles.PutRefinesMap | mock/repository/vehicle_repository_mock.go:35-52 | seen by plate, it is the map update of an upsert |
| FakeVehicles.FakeFollowsUpsert | mock/repository/vehicle_repository_mock.go:11-13 | the fake and the SQL table stay alike through a registration, both keeping the id of a known plate |
| FakeVehicles.FakeFollowsRun | mock/repository/vehicle_repository_mock.go:28-53 | after any run of registrations the fake and the SQL table hold the same plates with the same details for every driver |
| FakeVehicles.MockVehicleRepository.Register | mock/repository/vehicle_repository_mock.go:28-53 | the search-and-update loop on the driver's backing array gives that list and leaves other drivers' lists alone |
| FakeVehicles.MockVehicleRepository.ListByDriverID | mock/repository/vehicle_repository_mock.go:55-64 | a fresh copy of the driver's list |
| FakeVehicles.MockVehicleRepository.ListThenRegister | mock/repository/vehicle_repository_mock.go:61-63 | a list already returned is not altered by a later registration |
| FakeUsers.StoreKeepsAgreementExactly | mock/repository/user_repository_mock.go:41-46 | storing a row keeps the two indexes in step exactly when its id and identity are not another row's |
| FakeUsers.MockUserRepository.Create | mock/repository/user_repository_mock.go:35-48 | the new maps, in step for the empty ids the use cases pass |
| FakeUsers.MockUserRepository.GetByExternalID | mock/repository/user_repository_mock.go:79-90 | the one row of an external id through the second index |
| FakeUsers.MockUserRepository.GetOrCreateByMSISDN | mock/repository/user_repository_mock.go:62-77 | returns the row of the identity, a new one exactly as asked for, and keeps the indexes in step |
| FakeUsers.MockUserRepository.Update | mock/repository/user_repository_mock.go:92-117 | its three outcomes, version 0 and deleted rows accepted, each named column replaced and the others kept, indexes in step |
| FakeUsers.MockUserRepository.SoftDelete | mock/repository/user_repository_mock.go:119-132 | flips the status and nothing else, indexes in step |
| FakeUsers.MockUserRepository.List | mock/repository/user_repository_mock.go:134-156 | exactly the rows its filter shows, each once, in the map's order, and their number |

## Left out

- Users.Update: the version column is a 32-bit integer in Postgres; the error after two billion updates of one row is not modelled.
- Plates.Upper: of the letters outside ASCII only dotless i and long s, whose upper case is ASCII, are changed; the others cannot be part of an accepted plate.
- UserRepositories.UserRepository.List: a status filter that is not one of the enum's values, which Postgres rejects, is not modelled.
- UserUsecases.UserUsecase.GetUserByID: ids are taken as canonical UUID text, as the gateway passes them; other spellings would reach the same row under another cache key.
- Linearizability.Linearizable: assumes that no id is generated while a delete naming it is under way; LinearizableExactly and LinearizableButForHollow say what holds without that.
- Linearizability.AtomicCall: GetUserByExternalID is one SELECT and does not appear as a call of its own.
- Traces.Enabled: a generated id is new to its table; Users.Insert itself also covers a clash.
- Pagination.WalkMissesNothing: assumes distinct, increasing creation times and no deletions between fetches; DeletionHidesExactly says what one deletion does.
- MockCaches.MockCache.Set: the mock ignores its ttl; the expiry noted in the entry is added so that the same class can stand for Redis.
- Staleness.BoundedStaleness: the delay between a reader's SELECT and its SET is a parameter; the code does not bound it.
- FakeUsers.MockUserRepository.Create: the function fields that override the fakes' behaviour are not modelled.
- Database errors other than unique and foreign-key violations and missing rows.
- The cipher, the regular expression engine, JSON, mail parsing and JWT: parameters or decisions of library code.
- ListUsers and ListVehicles use cases only pass on to the repositories.
- Credit cards: no repository implementation exists in this code base.
- The idempotency interceptor and its store: never installed by the server.
- gRPC and HTTP handlers, error-code tables, logging, tracing, configuration, start-up.
- Locks of the fakes: every method of a fake runs under its mutex, so each is one step.
