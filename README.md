# Create-user workflow over a users store

This project models the core of a small domain-driven-design example in C#.
A `User` has a `UserId` and a `UserName`. It is stored as an `(id, name)` row
in a `users` table. `Program.CreateUser` builds a user and asks
`UserService.Exists` whether its name is already stored. If it is, the call
fails with an "already exists" error. Otherwise the user is persisted. The
first version of `Program` persists with a literal `INSERT`. The second
version is given an `IUserRepository` in its constructor and calls its `Save`.
`UserRepository.Find` looks a user up by name and returns an optional user.

The table is a `seq<Row>` in table order. Both name lookups run the same query,
`SELECT * FROM users WHERE name = @name`, which is modelled once as
`UsersTable.Select`. A row is in its result set exactly when it is a table row with the name, and its first row is the first matching row in table order. `Find` rebuilds a user
from the first row of that result set, and `Exists` answers whether it holds a
row at all.

`Save` is modelled as the `MERGE` statement of the SQL repository
(`src/5-10_UserRepository_Save copy.cs`, lines 5-26). The `Save` rows below
cite the interface's `Save` at src/5-9_IUserRepository_Option.cs:3 and its call
site at src/5-3_Program_after.cs:20. It is keyed by id: every row with
the user's id takes the user's name, and the row is appended when no row has
that id. For an id not yet in the table it is exactly the `INSERT` of the first
version. `Program.CreateUser` (after) states this special case in its
contract. The thrown exception becomes the typed value
`Fail(DuplicateName(userName))`, and `Find` returns `Option<User>` rather than
null.

Modules, one per source file or component:
- `Users` (users.dfy): the entity, its value objects, `Option`, `Outcome` and the duplicate error.
- `UsersTable` (users_table.dfy): rows, the name query, the `MERGE`, and the distinctness invariants.
- `UserRepositoryFind` (user_repository_find.dfy): `Find` and the lemmas that tie it to saving.
- `UserService` (user_service.dfy): `Exists`.
- `Repository` (user_repository.dfy): the `UserRepository` class with `Save` and `Find`.
- `ProgramBefore` (program_before.dfy): `CreateUser` with the literal `INSERT`.
- `ProgramAfter` (program_after.dfy): the `Program` class with its injected repository.
- `Scenario` (scenario.dfy): the "naruse" walk-through.

The source deviates from its evident intent in ways that would not compile:
- `Find` is declared `void` and binds an undefined `user.Name.Value`. The model takes the `userName` parameter and returns `Option<User>`, as the interface declares.
- `IUserRepository.Save` declares its parameter as a `UserService`. The model passes a `User`.
- The `MERGE` at `src/5-10_UserRepository_Save copy.cs` line 18 ends with a stray `;`. That makes the `WHEN NOT MATCHED` branch a separate statement and a syntax error, so the statement as written always fails. The model takes the intended upsert.
- Both versions of `Program` call the instance method `Exists` as `UserService.Exists` (src/5-1_Program_before.cs:10, src/5-3_Program_after.cs:16). The model uses the same predicate in both. In the first version it reads the table the `INSERT` writes; in the second it reads the repository's table.

## Model

| member | source | states |
|---|---|---|
| `UsersTable.ToRow` | src/5-1_Program_before.cs:20-22 | the `@id`/`@name` parameters carry the user's id and name, and reading that row back (as `Find` does) rebuilds the same user |
| `UsersTable.Select` | src/5-11_UserRepository_Find.cs:11-13 | the name query returns exactly the table's rows that have the name, and never more rows than the table holds |
| `UsersTable.SelectNonEmpty` | src/5-2_UserService_before.cs:10-14 | the query yields a row (`reader.Read()` is true) if and only if some row has the name |
| `UsersTable.SelectHeadIsFirstMatch` | src/5-11_UserRepository_Find.cs:13-15 | the first row the reader yields is the first matching row in table order |
| `UsersTable.FirstMatchExists` | src/5-11_UserRepository_Find.cs:15-22 | whenever the name is stored there is a first matching row |
| `UsersTable.UpdateName` | src/5-9_IUserRepository_Option.cs:3 | the `WHEN MATCHED THEN UPDATE` branch of the SQL repository's `MERGE` (`src/5-10_UserRepository_Save copy.cs`, lines 16-18): the length is kept, every row with the id becomes the saved row, and every other row is kept |
| `UsersTable.Upsert` | src/5-3_Program_after.cs:20 | what `userRepository.Save(user)` does to the table, as the SQL repository's `MERGE` statement (`src/5-10_UserRepository_Save copy.cs`, lines 12-20): after it the saved row is stored, every row that had its id has become the saved row, rows with other ids keep their place and value, and every row is either the saved row or the old row at that position. The table grows by one exactly when the id was absent, and then the row is appended |
| `UsersTable.AppendKeepsNamesDistinct` | src/5-1_Program_before.cs:10-23 | inserting a row whose name is not stored keeps names pairwise distinct |
| `UsersTable.UpsertIdempotent` | src/5-9_IUserRepository_Option.cs:3 | saving the same row twice leaves the table as saving it once (the `MERGE` of `src/5-10_UserRepository_Save copy.cs`, lines 12-20, is an upsert) |
| `UsersTable.UpsertKeepsIdsDistinct` | src/5-9_IUserRepository_Option.cs:3 | the `MERGE` keyed on `users.id = data.id` (`src/5-10_UserRepository_Save copy.cs`, line 16) keeps ids pairwise distinct |
| `UsersTable.AppendKeepsIdsDistinct` | src/5-1_Program_before.cs:20-23 | inserting a row whose id is not stored keeps ids pairwise distinct |
| `UsersTable.UpsertKeepsDistinct` | src/5-3_Program_after.cs:16-20 | merging a row whose name is not stored keeps names and ids pairwise distinct, when ids were distinct before |
| `UserRepositoryFind.Find` | src/5-11_UserRepository_Find.cs:5-30 | absent (not an error) exactly when no row has the name; a present user carries the queried name; when row k is the first match, the result is the user built from row k (its id and name) |
| `UserRepositoryFind.FindReturnsFirstMatch` | src/5-11_UserRepository_Find.cs:15-22 | when the name is stored, Find returns the user with the id of the first matching row and the queried name |
| `UserRepositoryFind.InsertedUserIsFound` | src/5-1_Program_before.cs:20-23 | after inserting a user whose name was not stored, Find on that name returns that very user |
| `UserRepositoryFind.SavedUserIsFound` | src/5-3_Program_after.cs:20 | after saving a user whose name was not stored, Find on that name returns that very user, whether or not its id was new |
| `UserRepositoryFind.OverwrittenNameIsAbsent` | src/5-11_UserRepository_Find.cs:11-27 | after saving a user under an existing row's id with a name not stored, Find on that row's old name is absent (when names were distinct) and Find on the new name returns the saved user |
| `UserService.Exists` | src/5-2_UserService_before.cs:3-18 | true if and only if some row has the user's name. The contract mentions only the name, so the id is irrelevant, and on an empty table the result is false |
| `UserService.ExistsIffFindPresent` | src/5-2_UserService_before.cs:10-15 | Exists holds exactly when Find on the same name is present, and Find's user then has that name |
| `Repository.UserRepository.Save` | src/5-9_IUserRepository_Option.cs:3 | the table becomes the `MERGE` (`src/5-10_UserRepository_Save copy.cs`, lines 11-24) of the user's row; with a new id, exactly that row is appended; the row is stored afterwards |
| `Repository.UserRepository.Find` | src/5-9_IUserRepository_Option.cs:5 | returns Find over the repository's table without changing it (no modifies clause): absent exactly when no row has the name, otherwise a user with that name |
| `ProgramBefore.CreateUser` | src/5-1_Program_before.cs:3-25 | a stored name gives `Fail(DuplicateName(userName))` with the table unchanged. Otherwise it gives `Pass` with exactly the row `(newId, userName)` appended and earlier rows untouched. The length grows by one only on success. After success Find returns the new user and Exists is true. Distinct names stay distinct, and distinct ids stay distinct when `newId` is not yet stored |
| `ProgramAfter.Program.constructor` | src/5-3_Program_after.cs:3-8 | the injected repository becomes the program's `userRepository` |
| `ProgramAfter.Program.CreateUser` | src/5-3_Program_after.cs:9-21 | modifies only the injected repository. A stored name gives the duplicate error, with Save never reached and the table unchanged. Otherwise it gives `Pass` with the table equal to Save's `MERGE` of `(newId, userName)`, which is one appended row when the id is new. After success Find returns the new user and Exists is true. Distinct names and ids stay distinct |
| `Scenario.NaruseScenario` | src/5-21_Program-EntityFramework.cs:1-8 | on an empty store, CreateUser("naruse") leaves a first stored row ("naruse" with the generated id), Find returns that user, and a second CreateUser("naruse") fails with the duplicate error |
| `Scenario.NaruseScenarioBefore` | src/5-21_Program-EntityFramework.cs:4-8 | the same walk-through with the `INSERT` version: the first row is "naruse", and the second creation fails as a duplicate |

## Left out

- SQL plumbing: the connection, command, parameter and reader objects, and the connection-string lookup in configuration. They are I/O. Each statement is modelled by its effect on the row sequence.
- Infrastructure failures: connection, command and mapping errors have no error path in the model. The source lets such exceptions propagate.
- The Entity Framework repository and its context. That is an ORM over storage not shown here. The scenario uses the SQL-backed repository model over an initially empty table, and reads its first row.
- Generation of `UserId` in the `User` constructor, whose body is not shown: `CreateUser` takes the new identifier as the parameter `newId`.
- `UserName` validation: the constructor body is not shown, so names are opaque strings and no validation error is modelled.
- The exception message text, including its Japanese wording. The failure is the value `DuplicateName(userName)`.
- Concurrency: the window between the existence check and the save, and the atomicity of each statement. The model runs one call at a time.
- ProgramBefore.CreateUser: `newId` is assumed fresh, as the identifier generator would make it. If the id is already stored, the model still appends a second row with that id. Under a key on `id`, the source's `INSERT` would fail with a key violation instead; that path is not modelled.
- ProgramAfter.Program.CreateUser: the existence check is assumed to read the repository's own table. In the source `UserService.Exists` opens its own connection to the `"FooConnection"` database (src/5-2_UserService_before.cs:5). The SQL repository uses `"DefaultConnection"`, and the Entity Framework repository writes through its context. So "Exists is true after success" and "distinct names and ids stay distinct" hold only when both reach the same table.
- UserRepositoryFind.Find and UserService.Exists: the model compares names and ids by exact, case-sensitive equality, with no padding rules. In the source the database's `=` compares them (`WHERE name = @name`, `ON users.id = data.id`), so its collation decides. A case-insensitive or trailing-space-insensitive collation would make `Find` return a user whose stored name differs from the queried one, and would make the duplicate check reject such names too.
- Row order: SQL without `ORDER BY` promises no order. The model fixes table order as insertion order, and `MERGE`/`INSERT` append at the end.

