# server-spec backend core in Dafny

This project models the core of the `server-spec` FastAPI backend:

- **User management.** `UserService` runs each public operation inside a
  `UnitOfWork` and delegates to `UserRepository`; `create_user_with_session`
  instead works on a session its caller already holds. The repository reads and
  writes one `users` table through an `AsyncSession`. `UserDTO`,
  `UserCreateDTO` and `UserUpdateDTO` carry the data and validate names
  (1 to 255 characters).
- **Transactions.** `UnitOfWork` opens a session on entry. On exit it
  commits, or rolls back after an error, and then closes. The
  `transactional` decorator wraps a method in one more `async with` of the
  same unit of work.
- **Bearer-token middleware.** In the `PROD` environment, with an
  `ACCESS_TOKEN` configured, it refuses a request with 401 unless the
  request carries `Authorization: Bearer <token>` with that token. The
  documentation, health and favicon paths are exempt.
- **LLM manager.** It builds one chat model per model name on first use and
  hands them out by name.
- **Identifier generator.** It builds store, product and payment ids from a
  Unix timestamp and the first 8 hex digits of a UUID4.
- **Settings.** It holds the configuration record, its four connection
  URLs and `is_production`.

One Dafny module models each source file:

| module | source file | modelled as |
|---|---|---|
| `Setting` | `backend/app/config/setting.py` | a `Settings` datatype, URL functions, their parsers |
| `IdGenerator` | `backend/app/util/id_generator.py` | functions of the clock and UUID values, which are passed in |
| `Auth` | `backend/app/middleware/auth.py` | a pure `Dispatch` decision function |
| `LlmManager` | `backend/app/core/llm_manager.py` | class `LLMManager` with a mutable registry |
| `UserDto` | `backend/app/dto/user.py` | datatypes with validity predicates and validating constructors |
| `UserTable` | the `users` table that the repository queries | a sequence of rows with unique e-mails |
| `Session` | `backend/app/database/session.py` | classes `Database`, `AsyncSession` and `UnitOfWork` |
| `Repository` | `backend/app/repository/user.py` | class `UserRepository` over a session |
| `Service` | `backend/app/service/user.py` | one specification function per operation, and class `UserService` whose methods are proved equal to them |
| `Scenarios` | `backend/test/integration/test_user_service.py` | multi-step lemmas over the service specification |

`Text` holds the string functions that Python provides: `str(int)` with
its parser, `split` and `join` on a separator, and prefix and suffix tests.
`Wrappers` holds `Option` and `Result`. `LlmManager.LifecycleScenario`
is a client of the `LLMManager` class: it has assertions but no contract.

Model of the persistence layer:

- A session sees a working copy (`view`) of the committed rows.
- `commit` publishes the working copy. `rollback` and `close` reset it to
  the committed rows.
- Each session records the events it received.
- Python exceptions (`ValueError`) are `Failure` results. A failure makes
  each unit-of-work exit roll back instead of commit.

## Model

| member | source | states |
|---|---|---|
| `Text.ParseIntToString` | backend/app/config/setting.py:52 | the decimal text that an f-string writes for any integer parses back to that integer |
| `Text.IntToStringInjective` | backend/app/util/id_generator.py:14 | different integers have different decimal texts |
| `Text.JoinOnSplit` | backend/app/util/id_generator.py:14 | splitting a string on a separator and joining the parts again gives the string back |
| `Text.SplitOnJoin` | backend/app/util/id_generator.py:14 | joining separator-free parts and splitting the result gives the parts back |
| `Setting.PostgresUrl` | backend/app/config/setting.py:50-52 | the asyncpg connection string; no contract of its own: `PostgresUrlFields` states that its fields parse back |
| `Setting.SyncPostgresUrl` | backend/app/config/setting.py:54-56 | the synchronous connection string; no contract of its own: `SyncPostgresUrlFields` relates it to `PostgresUrl` |
| `Setting.MongodbUrl` | backend/app/config/setting.py:58-60 | the MongoDB connection string; no contract of its own: `MongodbUrlFields` states its suffix and that its fields parse back |
| `Setting.RedisUrl` | backend/app/config/setting.py:62-64 | the Redis URL; no contract of its own: `RedisUrlFields` states that host, port and db parse back |
| `Setting.IsProduction` | backend/app/config/setting.py:66-69 | `not DEBUG`; no contract of its own: `DefaultsNotProduction` states it and its value under the defaults |
| `Setting.PostgresUrlFields` | backend/app/config/setting.py:50-52 | POSTGRES_URL starts with `postgresql+asyncpg://`; user, password, host, port and database name parse back out of it unchanged |
| `Setting.SyncPostgresUrlFields` | backend/app/config/setting.py:54-56 | SYNC_POSTGRES_URL carries the same five fields under `postgresql://`; after the scheme it equals the asyncpg URL |
| `Setting.MongodbUrlFields` | backend/app/config/setting.py:58-60 | MONGODB_URL ends in `?authSource=admin`; its five fields parse back out unchanged |
| `Setting.RedisUrlFields` | backend/app/config/setting.py:62-64 | REDIS_URL yields its host, port and database number back |
| `Setting.DefaultsNotProduction` | backend/app/config/setting.py:66-69 | `is_production` holds exactly when DEBUG is off; the declared defaults (DEBUG = True) are not production |
| `IdGenerator.GenerateId` | backend/app/util/id_generator.py:5-8 | returns the timestamp unchanged, with a unique part of exactly 8 lowercase hex digits that prefixes the UUID's hex |
| `IdGenerator.SplitStoreId` | backend/app/util/id_generator.py:11-14 | a store id splits on `_` into exactly `STR`, the timestamp and the unique part |
| `IdGenerator.SplitProductId` | backend/app/util/id_generator.py:17-20 | a product id splits on `_` into exactly `PRD`, the timestamp and the unique part |
| `IdGenerator.SplitPaymentId` | backend/app/util/id_generator.py:23-26 | a payment id splits on `_` into `PAY`, the unique part and then the timestamp |
| `IdGenerator.StoreId` | backend/app/util/id_generator.py:11-14 | `STR_{timestamp}_{unique}`; no contract of its own: `SplitStoreId`, `ParseGeneratedIds` and `GeneratedIdsAreDistinct` state its properties |
| `IdGenerator.ProductId` | backend/app/util/id_generator.py:17-20 | `PRD_{timestamp}_{unique}`; no contract of its own: `SplitProductId`, `ParseGeneratedIds` and `GeneratedIdsAreDistinct` state its properties |
| `IdGenerator.PaymentId` | backend/app/util/id_generator.py:23-26 | `PAY_{unique}_{timestamp}`, unique part first; no contract of its own: `SplitPaymentId`, `ParseGeneratedIds` and `GeneratedIdsAreDistinct` state its properties |
| `IdGenerator.ParseId` | backend/app/util/id_generator.py:11-26 | the inverse of the three formats, used by `ParseGeneratedIds`; its own contract only says an accepted id has an 8-hex-digit unique part, and it also accepts texts no generator writes (a timestamp of `-0` or with leading zeros) |
| `IdGenerator.ParseGeneratedIds` | backend/app/util/id_generator.py:11-26 | every generated id of every kind parses back to its kind, timestamp and unique part |
| `IdGenerator.GeneratedIdsAreDistinct` | backend/app/util/id_generator.py:11-26 | ids of different kinds never coincide; two ids of one kind are equal exactly when timestamp and unique part are |
| `Auth.Words` | backend/app/middleware/auth.py:49 | `split()` yields only non-empty, whitespace-free words |
| `Auth.WordsAfterGap` | backend/app/middleware/auth.py:49 | whitespace before and after a single word is dropped by `split()` |
| `Auth.Dispatch` | backend/app/middleware/auth.py:25-75 | every refusal is a 401 with media type `application/json` and one of the three `{"detail":…}` bodies |
| `Auth.NotEnforcedForwards` | backend/app/middleware/auth.py:26-28 | outside PROD, or with ACCESS_TOKEN unset or empty, every request is forwarded |
| `Auth.ExcludedPrefixForwards` | backend/app/middleware/auth.py:30-32 | a path that starts with an excluded entry is forwarded, e.g. `/healthz` |
| `Auth.ApiPathProtected` | backend/app/middleware/auth.py:13-19 | the user API path matches no excluded prefix |
| `Auth.MissingHeaderRejected` | backend/app/middleware/auth.py:35-45 | a missing or empty Authorization header gets "Authorization header required" |
| `Auth.MalformedHeaderRejected` | backend/app/middleware/auth.py:47-61 | a header that is not exactly two words with the first case-insensitively `bearer` gets "Invalid authorization header format" |
| `Auth.ForwardOnlyWithToken` | backend/app/middleware/auth.py:63-75 | when enforced, a protected request is forwarded only if its header is `bearer` (any case) followed by the configured token |
| `Auth.BearerHeaderDecides` | backend/app/middleware/auth.py:47-75 | for a well-formed bearer header with any whitespace before the scheme, between scheme and token and after the token, the token alone decides: forwarded if it matches, "Invalid access token" otherwise |
| `Auth.Lower` | backend/app/middleware/auth.py:50 | `scheme.lower()` on ASCII: keeps the length (see "Left out" for non-ASCII letters); `LowerIsBearer` states which schemes it maps to `bearer` |
| `Auth.LowerIsBearer` | backend/app/middleware/auth.py:50 | a scheme lowers to `bearer` exactly when it has six characters, each the letter of `bearer` in lower or upper case |
| `Auth.LowerBearer` | backend/app/middleware/auth.py:50 | `Bearer` and `BEARER` lower to `bearer`; `Basic` does not |
| `Auth.OtherSchemeRejected` | backend/app/middleware/auth.py:49-61 | a two-word header whose scheme is not `bearer` in any case is a format error, whatever the token |
| `Auth.ConcreteBearerHeader` | backend/app/middleware/auth.py:48-75 | in PROD with token `secret`, the header `Bearer secret` is forwarded |
| `Auth.ConcreteUpperCaseBearer` | backend/app/middleware/auth.py:50 | `BEARER secret` is forwarded too: the scheme is compared after lower-casing |
| `Auth.ConcreteWrongToken` | backend/app/middleware/auth.py:63-73 | `Bearer other` gets "Invalid access token" |
| `Auth.ConcreteOtherScheme` | backend/app/middleware/auth.py:50-51 | `Basic secret` gets the format error |
| `Auth.ConcreteLoneScheme` | backend/app/middleware/auth.py:49 | `Bearer` with no token gets the format error |
| `Auth.ConcreteBlankHeader` | backend/app/middleware/auth.py:36-49 | a header of only spaces passes the missing-header check and gets the format error |
| `LlmManager.Values` | backend/app/core/llm_manager.py:15-18 | `values()` lists `gpt-4o-mini`, `gpt-4o`, `gpt-5` in declaration order and includes every member |
| `LlmManager.Registry` | backend/app/core/llm_manager.py:30-36 | the initialised registry has exactly the model names as keys, each mapped to a chat model with that name and the API key |
| `LlmManager.RegistrySize` | backend/app/core/llm_manager.py:31-35 | the registry has exactly three models |
| `LlmManager.NotFoundMessage` | backend/app/core/llm_manager.py:46-49 | the `ValueError` text for an unknown model; no contract of its own: `NotFoundMessageListsModels` states its exact text |
| `LlmManager.NotFoundMessageListsModels` | backend/app/core/llm_manager.py:46-49 | the error names the requested model and lists all available models, comma-separated |
| `LlmManager.LLMManager.constructor` | backend/app/core/llm_manager.py:24-26 | a new manager is uninitialised with an empty registry |
| `LlmManager.LLMManager.Initialize` | backend/app/core/llm_manager.py:28-38 | returns true and leaves the full registry in place; a second call changes nothing |
| `LlmManager.LLMManager.GetModel` | backend/app/core/llm_manager.py:40-51 | initialises on demand; returns the model for a known name and the not-found error for any other |
| `LlmManager.LLMManager.IsInitialized` | backend/app/core/llm_manager.py:53-55 | true exactly when the registry is full |
| `UserDto.CheckName` | backend/app/dto/user.py:9 | a name passes exactly when its length is between 1 and 255 |
| `UserDto.NameBounds` | backend/app/dto/user.py:9 | the empty name and 256-character names fail; 1- and 255-character names pass |
| `UserDto.NewUserDTO` | backend/app/dto/user.py:6-10 | builds a DTO exactly when the name is valid, with `created_at` defaulting to None; otherwise it reports the name error |
| `UserDto.NewUserCreateDTO` | backend/app/dto/user.py:27-30 | builds the DTO exactly when the name is valid |
| `UserDto.NewUserUpdateDTO` | backend/app/dto/user.py:36-38 | an absent name is always accepted; a present one must be valid |
| `UserDto.FromOrm` | backend/app/dto/user.py:18-24 | copies e-mail, name and `created_at` from a row, and succeeds exactly on a valid name |
| `UserDto.UserUpdateDTO.HasData` | backend/app/service/user.py:65 | whether some field of the update is not None; no contract of its own: `UpdateData` ties it to the non-None dump and `Service.UpdateUserSpec` to the "No data provided" refusal |
| `UserDto.UserUpdateDTO.UpdateData` | backend/app/repository/user.py:53 | the update dictionary has a `name` key exactly when a name is given, holding that name |
| `UserDto.Defaults` | backend/app/dto/user.py:36-38 | the default update DTO carries no data and an empty update dictionary |
| `UserTable.Find` | backend/app/repository/user.py:31-37 | finds a row exactly when the e-mail is stored, and the row found has that e-mail |
| `UserTable.CountEmail` | backend/app/repository/user.py:76-79 | `SELECT count(email) WHERE email = :email`; no contract of its own: `CountEmailMatchesFind` states that it is 1 or 0 as `Find` says |
| `UserTable.CountEmailMatchesFind` | backend/app/repository/user.py:74-80 | with unique e-mails, the count of rows for an e-mail is 1 if it is stored and 0 otherwise |
| `UserTable.Insert` | backend/app/repository/user.py:16-26 | adding a user with a fresh e-mail keeps e-mails unique, adds one row and leaves every other lookup unchanged |
| `UserTable.SetName` | backend/app/repository/user.py:58-63 | the update statement sets the new name on the rows with that e-mail; it keeps every row's e-mail and `created_at`, the table's size, and its set of e-mails |
| `UserTable.FindAppend` | backend/app/repository/user.py:19-25 | appending a row with a fresh e-mail makes it findable and leaves every other lookup unchanged |
| `UserTable.FindAfterSetName` | backend/app/repository/user.py:58-65 | after a valid update, the table stays valid; only the named user's row changes, and only its name |
| `UserTable.Delete` | backend/app/repository/user.py:67-72 | the delete statement keeps exactly the rows with other e-mails |
| `UserTable.DeleteSize` | backend/app/repository/user.py:67-72 | deletion keeps the table valid; it removes exactly one row for a stored user and none for an unknown one |
| `UserTable.FindAfterDelete` | backend/app/repository/user.py:67-72 | after deletion, the deleted e-mail is gone and every other lookup is unchanged |
| `UserTable.SortByAge` | backend/app/repository/user.py:45 | `ORDER BY created_at DESC` gives a newest-first permutation of the table |
| `UserTable.Page` | backend/app/repository/user.py:39-48 | a page has `min(limit, rows after skip)` rows, newest first, all from the table |
| `UserTable.PagesConcatenate` | backend/app/repository/user.py:42-45 | two consecutive pages are together the page with the combined limit |
| `UserTable.FullPage` | backend/app/repository/user.py:39-48 | a limit covering the table lists every row exactly once |
| `Repository.UserError.Message` | backend/app/service/user.py:23-66 | the text of the three `ValueError`s (also raised at backend/app/repository/user.py:29); no contract of its own: `MessagesEndWithReason` states the phrases they carry |
| `Repository.MessagesEndWithReason` | backend/app/service/user.py:23-66 | the three error messages end with "already exists" or "not found", or start with "No data provided" |
| `Repository.ToDto` | backend/app/dto/user.py:18-24 | converting a stored row gives a valid DTO with its e-mail, name and timestamp |
| `Repository.StoredRowValid` | backend/app/repository/user.py:26 | a stored row always converts without a validation error |
| `Repository.Lookup` | backend/app/repository/user.py:31-37 | a DTO for exactly the stored e-mails, converted from the one row stored under that e-mail |
| `UserTable.PageRowsFound` | backend/app/repository/user.py:39-48 | every row of a page is the row stored under its e-mail, and a page lists no e-mail twice |
| `Repository.Listing` | backend/app/repository/user.py:39-48 | a page of the right length, newest first, each entry the stored user under its e-mail (same name and `created_at`), no user listed twice |
| `Repository.RowCountIsUserCount` | backend/app/repository/user.py:82-85 | the row count equals the number of distinct users |
| `Repository.UserRepository.constructor` | backend/app/repository/user.py:13-14 | the repository works on the given session |
| `Repository.UserRepository.Create` | backend/app/repository/user.py:16-29 | a fresh e-mail is inserted, stamped `now`, and its DTO returned; a duplicate rolls the session back and fails with "already exists" |
| `Repository.UserRepository.GetByEmail` | backend/app/repository/user.py:31-37 | the stored user for exactly the stored e-mails |
| `Repository.UserRepository.GetAll` | backend/app/repository/user.py:39-48 | at most `limit` users, newest first |
| `Repository.UserRepository.Update` | backend/app/repository/user.py:50-65 | an empty update is a plain lookup; otherwise it sets the name and returns the updated user, or None if the e-mail is unknown |
| `Repository.UserRepository.Delete` | backend/app/repository/user.py:67-72 | true exactly when a row existed, and the row is gone afterwards |
| `Repository.UserRepository.Exists` | backend/app/repository/user.py:74-80 | true exactly when a user with that e-mail is stored |
| `Repository.UserRepository.CountAll` | backend/app/repository/user.py:82-85 | the number of distinct users in the session's view |
| `Session.AsyncSession.constructor` | backend/app/database/session.py:14 | a new session sees the committed rows and has received no events |
| `Session.AsyncSession.Commit` | backend/app/database/session.py:21 | the working copy becomes the committed rows |
| `Session.AsyncSession.Rollback` | backend/app/database/session.py:19 | the working copy is reset to the committed rows |
| `Session.AsyncSession.Close` | backend/app/database/session.py:22 | the session is closed and the working copy is reset |
| `Session.ExitEvents` | backend/app/database/session.py:17-22 | an exit is rollback-then-close after an error and commit-then-close otherwise |
| `Session.UnitOfWork.constructor` | backend/app/database/session.py:10-11 | a new unit of work has opened no session |
| `Session.UnitOfWork.Enter` | backend/app/database/session.py:13-15 | every entry creates a fresh session over the committed rows and replaces `self.session` |
| `Session.UnitOfWork.Exit` | backend/app/database/session.py:17-22 | the current session rolls back or commits and is then closed; the committed rows change only on commit |
| `Session.NestedScope` | backend/app/database/session.py:25-30 | decorator plus inner `async with`: two sessions are opened; the first gets no exit at all; the second gets both exits |
| `Service.CreateUserSpec` | backend/app/service/user.py:15-25 | a duplicate e-mail fails and changes nothing; otherwise exactly one user is added with the given name and time |
| `Service.GetUserByEmailSpec` | backend/app/service/user.py:37-42 | a user for exactly the stored e-mails, and it is the DTO of the row stored under that e-mail |
| `Service.GetAllUsersSpec` | backend/app/service/user.py:44-53 | the total is the number of users whatever the page; the page is the repository listing: `min(limit, total − min(skip, total))` entries, newest first, each the stored user under its e-mail |
| `Service.UpdateUserSpec` | backend/app/service/user.py:55-68 | an unknown user fails before an empty update; a stored user with a name to set always succeeds, and a success changes only that user's name and keeps its `created_at` |
| `Service.DeleteUserSpec` | backend/app/service/user.py:70-80 | an unknown user fails; otherwise exactly that user is removed and the result is true |
| `Service.UserService.constructor` | backend/app/service/user.py:12-13 | the service uses the given unit of work |
| `Service.UserService.CreateUser` | backend/app/service/user.py:15-25 | result and committed table are those of `CreateUserSpec`; the unit of work is entered twice with the inner session committed or rolled back twice |
| `Service.UserService.CreateUserWithSession` | backend/app/service/user.py:27-35 | applies `CreateUserSpec` to the caller's session without committing or closing it |
| `Service.UserService.GetUserByEmail` | backend/app/service/user.py:37-42 | returns `GetUserByEmailSpec` and leaves the committed table unchanged |
| `Service.UserService.GetAllUsers` | backend/app/service/user.py:44-53 | returns `GetAllUsersSpec`, with defaults skip 0 and limit 100, and leaves the table unchanged |
| `Service.UserService.UpdateUser` | backend/app/service/user.py:55-68 | result and committed table are those of `UpdateUserSpec` |
| `Service.UserService.UpdateUserIn` | backend/app/service/user.py:59-68 | the body of `update_user` on an open session computes `UpdateUserSpec` on that session's rows and neither commits nor closes |
| `Service.UserService.DeleteUserIn` | backend/app/service/user.py:74-80 | the body of `delete_user` on an open session computes `DeleteUserSpec` on that session's rows and neither commits nor closes |
| `Service.UserService.DeleteUser` | backend/app/service/user.py:70-80 | result and committed table are those of `DeleteUserSpec` |
| `Scenarios.CreateAllStores` | backend/test/integration/test_user_service.py:218-221 | creating users with distinct fresh e-mails one after another always succeeds and stores each user as given |
| `Scenarios.UpdateAllRenames` | backend/test/integration/test_user_service.py:229-232 | renaming stored distinct users one after another always succeeds, gives each its new name and touches nobody else |
| `Scenarios.DeleteAllRemoves` | backend/test/integration/test_user_service.py:234-236 | deleting stored distinct users one after another always succeeds and removes exactly them |
| `Scenarios.RenameThenDelete` | backend/test/integration/test_user_service.py:229-239 | renaming the first k users and deleting the rest leaves exactly k users, carrying their new names |
| `Scenarios.ListsRenamedOf` | backend/test/integration/test_user_service.py:238-246 | a default listing of at most 100 users shows every renamed user under the new name |
| `Scenarios.CreateAllListed` | backend/test/integration/test_user_service.py:218-227 | after creating n distinct users in an empty table, all succeed and the listing total is n |
| `Scenarios.RenameDeleteListed` | backend/test/integration/test_user_service.py:229-246 | from a table of exactly the given users, renaming k and deleting the rest succeeds, leaves total k and lists the renamed users |
| `Scenarios.BulkOperations` | backend/test/integration/test_user_service.py:213-246 | the whole bulk sequence for any distinct e-mails: every call succeeds; the total equals the number created; then k remain and are listed under their new names |
| `Scenarios.BulkEmailsDistinct` | backend/test/integration/test_user_service.py:215 | the e-mails `bulk{i}@example.com` are pairwise distinct |
| `Scenarios.BulkScenario` | backend/test/integration/test_user_service.py:213-246 | the test's ten users: 10 listed and counted after creation, 5 counted at the end, and each listed as `Updated Bulk User {i}` |

## Left out

- **Clock, UUID and database time.** These become parameters: `timestamp`
  and `uuidHex` for the id generator, and `now` for the `created_at`
  that the database assigns on insert.
- **Settings loading.** Reading settings from the environment and `.env`
  is not modelled. `Settings` holds the loaded values, and `Defaults`
  holds the declared defaults.
- **`ParseDsn`, `ParseHostPort`, `ParseRedisUrl`.** The URL round trips
  assume user, password, host and database name contain no `:`, `@` or
  `/` (`Plain`). The source does no URL escaping. With such characters,
  the URL string is still built as the source builds it, but its fields
  are ambiguous.
- **`Auth.Lower`.** It lowers ASCII letters only. Python's `lower()` also
  maps non-ASCII letters. The only comparison made is with `bearer`, so
  the middleware decides the same way unless a non-ASCII letter lowers to
  an ASCII one.
- **`Auth.Dispatch` side effects.** The warning logs and `call_next` are
  left out. The decision `CallNext` or `Respond(...)` is what `dispatch`
  returns.
- **Chat-model construction.** `ChatOpenAI` is left out. A chat model is
  the pair of API key and model name it is built with. The
  `get_llm_manager` singleton cache (`lru_cache`) is left out.
- **The `users` table definition.** `backend/app/database/model/user.py` is
  not part of this model. Its e-mail is taken as the unique key. This is
  why a duplicate insert raises `IntegrityError`, and it is also what
  `scalar_one_or_none` relies on.
- **`Repository.UserRepository.Create`, `IntegrityError` path.** The
  service never reaches this path, because it checks for the e-mail first.
  The repository method models it as a rollback followed by the
  "already exists" failure.
- **`Repository.UserRepository.GetAll`, ties.** Rows with equal
  `created_at` are listed in storage order. SQL leaves the order of ties
  unspecified.
- **`Repository.UserRepository.GetAll`, skip and limit.** `skip` and `limit`
  are natural numbers. A negative OFFSET or LIMIT is a database error,
  which is not modelled.
- **`UserDto`, e-mail.** E-mail syntax (`EmailStr`) is not validated. An
  e-mail is any string.
- **`UserDto`, `created_at`.** `created_at` is a natural number of seconds,
  not a `datetime`. Its JSON encoder (`isoformat`) is left out.
- **Concurrency.** Concurrent use of one `UnitOfWork` from several coroutines
  is not modelled. Each service method runs alone against the database.
- **Nested unit of work.** Every `@transactional` service method enters
  the same unit of work twice: once in the decorator and once in its body.
  The first session is never committed or closed. The second session gets
  both exits. The model keeps this behaviour as the source writes it.
- **MongoDB.** The MongoDB client, its connection helpers and
  `declarative_base` in `backend/app/database/session.py` are left out.
  They only call into driver libraries.
