# Users CRUD over a SQLite table, modelled in Dafny

This project models the logic of a small Express REST API. The API keeps users in a SQLite table
`users (id INTEGER PRIMARY KEY, name TEXT, age INTEGER)` and has five handlers: `createUser`,
`getUsers`, `getUser`, `updateUser` and `deleteUser`. The model has four modules:

- `Users` (users.dfy) gives the value semantics of every SQL statement the controller issues.
  The table is a `map<int, (string, int)>` from `id` to `(name, age)`. Because it is a map, the
  primary key is unique by construction. `Database` says whether the table exists yet. Next to
  the statements are the lemmas that relate them.
- `UserStore` (user_store.dfy) is the shared database handle. `Store` is a class with a
  `present` flag and a `rows` map. It has one method per data-changing statement. Each method's
  `ensures` ties the new state to the matching `Users` function, or, for `DeleteAll`, states it
  directly (no rows are left). The two SELECT statements are
  read-only functions of the class.
- `UserController` (user_controller.dfy) holds the handlers. The three write handlers are methods
  that change the store. The two read handlers are functions of the store's state. A `Response`
  is one of four things: `Echo(body)` (the request body sent back unchanged), `Row(user)`,
  `RowList(users)`, or `Empty` (the JSON object `{}`).
- `AppTest` (app_test.dfy) replays the repository's end-to-end test with the exact values it
  expects.

Modelling decisions:

- **Id allocation.** `id` is an `INTEGER PRIMARY KEY` without `AUTOINCREMENT`. SQLite therefore
  gives a new row one more than the largest id in the table, or 1 when the table is empty
  (`Users.NextId`). Auto-increment is often read as "a deleted id is never reused"; this schema
  does not behave that way: deleting the row with the largest id makes that id the next one
  handed out. `Users.DeletedMaxIdIsReused` proves the reuse.
- **Row order.** `SELECT * FROM users` has no `ORDER BY`. As a modelling choice, the model
  returns rows in ascending id order, which is SQLite's rowid scan order.
  `Users.InsertAppendsToListing` shows that a new row always goes to the end of the listing, so
  this order is the insertion order of the rows that remain.
- **Start-up before requests.** The start-up block is queued on the connection when the module
  loads, before any request. So the handlers require `db.present` (the table exists).
- **Parsed inputs.** Handlers take `id`, `name` and `age` already parsed, as `int`, `string` and
  `int`. They also take the request body as opaque text (`Body`), which they only echo back.

## Model

| member | source | states |
|---|---|---|
| `Users.CreateIfAbsent` | src/controllers/user.controller.js:6 | afterwards the table exists; an existing table is kept unchanged, an absent one is created empty |
| `Users.Startup` | src/controllers/user.controller.js:5-10 | afterwards the table exists; in test mode it is empty; otherwise an existing table keeps its rows |
| `Users.StartupIdempotent` | src/controllers/user.controller.js:5-10 | running start-up twice gives the same database as running it once |
| `Users.FirstInsertAfterTestStartup` | src/controllers/user.controller.js:7-8 | after test-mode start-up the first insert gets id 1 and the table is exactly that one row |
| `Users.NextId` | src/controllers/user.controller.js:15-16 | the new id is 1 on an empty table, otherwise one more than an existing id and greater than every id present, so it is not in use |
| `Users.Inserted` | src/controllers/user.controller.js:15-16 | INSERT adds exactly the key `NextId(m)` holding `(name, age)`; every other row is unchanged |
| `Users.Updated` | src/controllers/user.controller.js:46-47 | UPDATE keeps the set of ids; the matching row gets the new name and age; other rows are unchanged; a missing id leaves the table unchanged |
| `Users.Deleted` | src/controllers/user.controller.js:56-57 | DELETE removes exactly the given id from the keys; remaining rows are unchanged; a missing id leaves the table unchanged |
| `Users.DeleteUndoesInsert` | src/controllers/user.controller.js:56-57 | deleting the id an insert just assigned restores the table exactly as it was before the insert |
| `Users.DeletedMaxIdIsReused` | src/controllers/user.controller.js:6 | after deleting the row with the largest id, the next insert gets that same id whenever the id below it exists, or it was the only row and had id 1 |
| `Users.ListAll` | src/controllers/user.controller.js:24 | SELECT * returns every row exactly once with its stored name and age, nothing else, as many rows as the table holds, ascending by id |
| `Users.ListsUnique` | src/controllers/user.controller.js:24 | any two ascending listings of the same rows are equal, so the listing is determined by the table |
| `Users.InsertAppendsToListing` | src/controllers/user.controller.js:15-16 | after an insert the listing is the old listing followed by the new row |
| `Users.CreateThenListOnEmpty` | tests/app.test.js:9-19 | inserting into an empty table and listing gives exactly `[{id: 1, name, age}]` |
| `Users.WhereAscending` | src/controllers/user.controller.js:33-35 | filtering an ascending listing by id gives the single stored row when the id occurs, and no row when it does not |
| `Users.SelectById` | src/controllers/user.controller.js:33 | SELECT ... WHERE id = ? returns `[the stored row]` when the id exists and `[]` otherwise, so never more than one row |
| `UserStore.Store.Open` | src/controllers/user.controller.js:3 | a new connection sees the database in the state it was opened on |
| `UserStore.Store.CreateTableIfNotExists` | src/controllers/user.controller.js:6 | the new state is `CreateIfAbsent` of the old one |
| `UserStore.Store.DeleteAll` | src/controllers/user.controller.js:8 | the table is left with no rows |
| `UserStore.Store.Startup` | src/controllers/user.controller.js:5-10 | the new state is `Startup` of the old state and the mode |
| `UserStore.Store.Insert` | src/controllers/user.controller.js:15-16 | returns the id `NextId` of the old rows; the new rows are `Inserted` of the old rows |
| `UserStore.Store.SelectAll` | src/controllers/user.controller.js:24 | returns every row exactly once, ascending by id |
| `UserStore.Store.SelectWhereId` | src/controllers/user.controller.js:33 | returns the stored row when the id exists, otherwise no row |
| `UserStore.Store.UpdateWhereId` | src/controllers/user.controller.js:46-47 | the new rows are `Updated` of the old rows |
| `UserStore.Store.DeleteWhereId` | src/controllers/user.controller.js:56-57 | the new rows are `Deleted` of the old rows |
| `UserController.CreateUser` | src/controllers/user.controller.js:12-20 | inserts the row; reading the new id afterwards gives `{id, name, age}`; responds with the submitted body, not the row or its id |
| `UserController.GetUsers` | src/controllers/user.controller.js:22-28 | responds with a list of every row exactly once (ascending id); an empty table gives `[]` |
| `UserController.GetUser` | src/controllers/user.controller.js:30-40 | responds with the stored `{id, name, age}` when the id exists, and with `{}` (not an error) otherwise |
| `UserController.UpdateUser` | src/controllers/user.controller.js:42-51 | replaces only the matching row's name and age, so a later read shows them; a missing id creates nothing and changes nothing; responds with the submitted body |
| `UserController.DeleteUser` | src/controllers/user.controller.js:53-61 | removes exactly the matching row, after which `getUser` answers `{}`; a missing id changes nothing; responds with the request body |
| `AppTest.Scenario` | tests/app.test.js:9-53 | test mode, then create Ryan/18, list `[{1, Ryan, 18}]`, read `{1, Ryan, 18}`, update to Ryan+/20, read `{1, Ryan+, 20}`, delete, read `{}` |

## Left out

- The sqlite3 driver: opening the connection, `serialize` scheduling, and
  `prepare`/`run`/`finalize`. The model keeps only the effect of each statement on the table.
- The choice between an in-memory database in test mode and the `test.db` file otherwise
  (src/controllers/user.controller.js:3). `Store.Open` takes the database state it finds as a
  parameter: `NoTable` for a fresh database, or the rows already in the file.
- HTTP and routing: `res.json`, reading `req.params` and `req.body`, status codes, the Express
  app. src/app.js is not part of this model.
- Body parsing: `Body` is opaque and the handlers only echo it. The model does not check that
  `name` and `age` came from that body.
- Error callbacks: the handlers ignore the `err` argument of `db.all`. A failed query would make
  `rows.length` throw, but no behaviour is specified for that, so it is not modelled.
- SQLite type coercion: `id` arrives as a string from the path and is compared against an
  INTEGER column, and `age` is stored unchecked. The model uses `int` for both. A `name` or
  `age` missing from the body (src/controllers/user.controller.js:13, :43) is `undefined` and is
  stored as NULL, so a later read would return `null` for it; the model has no NULL.
- Concurrency: requests touching the same id in parallel are not modelled. Each handler is one
  atomic step on the store.
- Response timing: in `createUser`, `updateUser` and `deleteUser`
  (src/controllers/user.controller.js:18, :49, :59), `res.json(req.body)` runs synchronously,
  before the queued `stmt.run` has executed, so the client gets its answer before the write
  happens. The model's handlers write first and then return. Later statements on the same
  connection are serialized after the write, so what later requests read is the same either way.
- src/index.js: environment loading and port binding are I/O.
- `Users.NextId`: does not model rowid overflow. When the largest id is 2^63-1, SQLite picks an
  unused id at random; the model's ids are unbounded integers.
- `Users.ListAll`: the order of `SELECT *` without `ORDER BY` is not guaranteed by SQLite. Ascending
  id order is a modelling choice, not a promise of the source.
