# Authentication service and sector grouping, in Dafny

This project models the authentication service of a small project-catalogue
web backend (`modules/auth-service.js`), and one fold from its web server
(`server.js`). Both are proved in Dafny.

- **Registration** (`registerUser`). It refuses a password and confirmation
  that differ. Otherwise it hashes the password with bcrypt at cost factor 10,
  writes the hash and an empty login history into the request body, and
  creates the `User` row. It rejects with a distinct message for each cause:
  a taken user name, a hashing failure, or any other create error.
- **Credential check** (`checkUser`). It finds the user by name and compares
  the password with the stored hash. On success it updates the login history
  in place: when it already holds 8 events the oldest (last) one is popped,
  then the new event is unshifted to the front. It saves the user and returns
  it.
- **The `User` table**: the rows, the unique constraint on `userName`, and
  the `create`, `findOne` and `save` calls the service makes.
- **The sector grouping** of the `/solutions/projects` route. It reduces the
  project list into an object that maps each sector name to that sector's
  projects, in input order.

Modules, one per component:

| file | module | what |
|---|---|---|
| `password.dfy` | `Password` | a stand-in for bcrypt's `hash` and `compare` |
| `login_history.dfy` | `LoginHistory` | the login event, the cap of 8, the history update rule |
| `user_store.dfy` | `UserStore` | the `User` table as a class with a uniqueness invariant; Sequelize instances as a class |
| `auth_service.dfy` | `AuthService` | `RegisterUser` and `CheckUser` as methods, the rejection messages |
| `sector_grouping.dfy` | `SectorGrouping` | the grouping fold as written, and corrected |
| `scenarios.dfy` | `Scenarios` | client scenarios on a fresh table, proved from the contracts |

Things that are not under the model's control become parameters:
- bcrypt's random salt, with `None` meaning hashing failed;
- the clock, as the `now` string that `new Date().toString()` would give;
- every database failure other than the unique constraint, as an
  `Option<string>` on the call that meets it.

The JavaScript hands results back through promises. Here each operation
returns an outcome instead: success, or an `AuthError`. `AuthService.Message`
turns an `AuthError` into the exact string the promise is rejected with.

Three behaviours of the code worth noting:
- A save failure after a correct password is an ordinary rejection
  ("Error updating login history: " + error). The caller gets no separate
  confirmation that the password was right.
- Registration rewrites the caller's request body (the password and the
  history) once hashing succeeds. That happens even when `User.create` then
  fails, so registration is not free of side effects before the create.
- A failed lookup and a missing user give the same rejection, as the code
  does.

## Model

| member | source | states |
|---|---|---|
| `Password.Hash` | modules/auth-service.js:40-41 | the stored form carries the cost-10 header and the salt, and never equals the plaintext |
| `Password.CompareAcceptsOnlyHashedPassword` | modules/auth-service.js:69-73 | comparing a password with a hash of `p` succeeds exactly when the password is `p` |
| `LoginHistory.RecordLogin` | modules/auth-service.js:76-78 | the new event is first; the rest is a prefix of the old history (only the oldest is dropped, and only at 8 or more); the length grows by one below the cap and stays put at the cap or above; a history within the cap stays within it |
| `LoginHistory.RecordLoginsKeepsNewest` | modules/auth-service.js:76-80 | from a history within the cap, any run of logins leaves exactly the newest 8 of (new events newest first, then the old history) |
| `LoginHistory.TenLoginsKeepNewestEight` | modules/auth-service.js:76-78 | ten logins into an empty history leave 8 events, newest first, and the two oldest are gone |
| `UserStore.Position` | modules/auth-service.js:63 | `findOne` by name gives the first row with that name, or nothing exactly when no row has it |
| `UserStore.PositionIsTheOnlyMatch` | modules/auth-service.js:20-23 | under the unique constraint, any row with the name is the one found |
| `UserStore.AtMostOneRowPerName` | modules/auth-service.js:20-23 | under the unique constraint, at most one row carries a name, and exactly one when `findOne` finds it |
| `UserStore.AppendFreshKeepsUnique` | modules/auth-service.js:20-23 | inserting a row whose name is absent keeps the names unique |
| `UserStore.UserTable.Locate` | modules/auth-service.js:63 | the table scan returns the index `Position` specifies |
| `UserStore.UserTable.Create` | modules/auth-service.js:44-49 | a taken name gives a unique violation; otherwise a database failure gives that error; otherwise the row is appended; only a successful create changes the table, and the names stay unique |
| `UserStore.UserTable.FindOne` | modules/auth-service.js:63-67 | a lookup failure is reported as such; an absent name gives not found; otherwise a fresh instance that equals the stored row |
| `UserStore.UserTable.Save` | modules/auth-service.js:80-83 | a database failure writes nothing; otherwise the row of the instance's name is overwritten with the instance; names stay unique |
| `AuthService.MessageIdentifiesCause` | modules/auth-service.js:36-85 | two rejections give the same string exactly when they are the same cause with the same detail |
| `AuthService.RegisterUser` | modules/auth-service.js:33-59 | mismatched passwords: rejected, nothing touched; hash failure: rejected, nothing touched; otherwise the body carries the hash and an empty history; a taken name or create failure leaves the table as it was; success appends one row holding the hash (not the plaintext) and an empty history; uniqueness and the history cap are preserved |
| `AuthService.AfterLogin` | modules/auth-service.js:76-80 | a login changes only the history, to `RecordLogin` of the stored one, and keeps a capped row capped |
| `AuthService.LoginOnNullHistory` | modules/auth-service.js:76-80 | a login on a row whose history is null stores a history holding just the new event |
| `AuthService.CheckUser` | modules/auth-service.js:61-87 | unknown name or failed lookup: "user not found", nothing written; wrong password: rejected, nothing written; save failure: rejected, nothing written; success: the returned user is a fresh instance, owned by the caller, equal to the updated row, so the saved and the returned rows agree; uniqueness and the history cap are preserved |
| `SectorGrouping.SectorsOfIsSectorNames` | server.js:48-49 | every project's sector is a key, and every key is the sector of some project |
| `SectorGrouping.InSectorIsFilter` | server.js:47-51 | a group holds only projects of its sector, and holds each of them as often as the input does |
| `SectorGrouping.InSectorConcat` | server.js:50 | grouping keeps input order: the group of a concatenation is the first part's group followed by the second's |
| `SectorGrouping.InSectorAbsent` | server.js:49 | a sector no project has gets no projects |
| `SectorGrouping.InSectorNonEmpty` | server.js:49-50 | no group is empty |
| `SectorGrouping.SectorOrder` | server.js:49 | lists each sector present exactly once, and nothing else |
| `SectorGrouping.SectorOrderIsFirstOccurrence` | server.js:49 | the sectors are listed in order of first occurrence: each listed sector occurs in the input, and a sector listed earlier first occurs earlier |
| `SectorGrouping.GroupsPartitionProjects` | server.js:47-52 | the groups, taken together, hold exactly the input projects, so the group sizes add up to the number of projects |
| `SectorGrouping.Push` | server.js:48-51 | one fold step turns the grouping of the projects so far into the grouping with the next project added |
| `SectorGrouping.GroupBySector` | server.js:47-52 | the fold's keys are exactly the sectors present, and each key's group is that sector's projects in input order |
| `SectorGrouping.GroupBySectorAsWritten` | server.js:47-52 | the fold into `{}` fails exactly when some sector is named like an inherited object property, and otherwise gives the same grouping |
| `SectorGrouping.ConstructorSectorExample` | server.js:49-50 | one project in a sector named "constructor" crashes the fold as written and is grouped by the corrected fold |
| `Scenarios.RegisterTwice` | modules/auth-service.js:44-55 | registering a name twice succeeds, then is refused as taken, and one row keeps the name |
| `Scenarios.LoginAfterRegistration` | modules/auth-service.js:40-82 | the stored password is not the plaintext; a wrong password is refused and leaves the history empty; the right one records the login |
| `Scenarios.UnknownUser` | modules/auth-service.js:63-67 | an unknown name is refused with "Unable to find user: " and the name, and nothing is written |

## Findings

| source | as written | input that shows it | evidently intended | confidence | as-written member | corrected member |
|---|---|---|---|---|---|---|
| server.js:47-52 | the accumulator is the literal `{}`. For a name that every object inherits, `!acc[sector]` is false, so no group is started, and `acc[sector].push` is not a function: a `TypeError`, and the route renders its error page | one project whose sector is named `constructor` (likewise `toString`, `valueOf`, `__proto__`, ...) | group every sector name, for example by folding into `Object.create(null)` or a `Map` | high; not executed | `SectorGrouping.GroupBySectorAsWritten`, `SectorGrouping.ConstructorSectorExample` | `SectorGrouping.GroupBySector` |

## Left out

- bcrypt itself. `Password.Hash` is a transparent stand-in: the header, the
  salt, then the password. It is neither one-way nor slow. The model relies
  only on the properties proved for it: a hash is never its plaintext, and
  `Compare` accepts exactly the hashed password, which is stricter than
  bcrypt (next line). bcrypt's own failures are all folded into "no salt"
  (`None`).
- `Password.CompareAcceptsOnlyHashedPassword`: bcrypt reads only the first
  72 bytes of the UTF-8 password. So `bcrypt.compare(q, hash(p))` also
  succeeds for any `q` that shares those 72 bytes with `p`, and the source
  logs such a `q` in. `Compare` here checks the whole password, so
  `AuthService.CheckUser` refuses that `q`. The two agree on passwords of
  at most 72 bytes.
- `Password.Hash`: its length is `29 + |password|`, where bcrypt's is a
  fixed 60. The stand-in keeps the password so that `Compare` can be
  defined without an axiom.
- Sequelize's change tracking. The code mutates the JSON history array in
  place and assigns the same array back before `save()`. Whether Sequelize
  then sees a change is library behaviour that is not part of this model.
  `UserStore.UserTable.Save` always writes the whole instance.
- `UserStore.UserTable.Save`: saving an instance whose name has no row
  leaves the table unchanged. `checkUser` never does this.
- `UserStore.UserTable.Create`: when the name is taken and the database also
  fails, the model reports the unique violation. Which error a real database
  reports first is not modelled.
- The connection setup, `dotenv` and `initialize` / `sync`. I/O, not rules.
- `modules/projects.js` is not part of this model. It is plain database
  pass-through.
- The rest of `server.js`: routing, rendering, status codes, start-up. Only
  the fold at lines 47-52 is modelled.
- Failures inside the `bcrypt.compare(...).then(...)` callback (line 69).
  That promise is not returned into the `findOne` chain, so the `.catch` at
  line 85 never sees its failures. One example is a stored history that is
  JSON but not an array, where `history.unshift` is not a function. A
  rejection of `compare` itself, for example for a password that is not a
  string, is likewise never handled. Either way the rejection is unhandled
  and the outer promise never settles. Only a failure of `findOne` itself
  reaches line 85 and becomes "Unable to find user"; that case is modelled.
- Non-string inputs, such as a missing `password` field, and a stored
  `loginHistory` that is JSON other than null or an array. Values are
  strings, and histories are null or sequences.
- Concurrency: two logins of the same user racing on the history (a lost
  update). Each operation here runs alone.
- The formatting of dates. The timestamp is the `now` parameter.
- How the save error becomes text: `reason` is the error's string form.
- The key order of the grouped object. A Dafny `map` has no order.
  `SectorGrouping.SectorOrder` lists the sectors in first-occurrence order
  (proved by `SectorGrouping.SectorOrderIsFirstOccurrence`). That is
  JavaScript's enumeration order only for names that are not array indices.
- A project whose `Sector` is null. In the code that throws a `TypeError`.
  Here every project has a sector name.
