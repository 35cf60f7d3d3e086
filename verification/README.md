# vue-user-list server: a Dafny model of the user API

This project models the request handlers of the user-directory server (`server/server.js`).
The server has six handlers: create, list all, paginate, get by id, partial update and delete.
The relational database behind them is replaced by an in-memory store.
A `Store` maps each autoincrement id to a `User`: an email, a `createdAt` timestamp and an optional `Profile` (name, status, bio).
`nextId` is the id the autoincrement column hands out next.
Each handler is a pure function from the store and the request's fields to an `Outcome`.
An `Outcome` holds the HTTP status, the JSON body and the store after the request.

Modules, one file each:

- `Values` (`values.dfy`): request-body values (`undefined`, `null`, boolean, number, string), JavaScript truthiness, and `??`'s nullish test.
- `Store` (`store.dfy`): the rows, the autoincrement invariant `Valid`, and the four row operations the handlers issue. The user delete requires that the user has no profile row, because the foreign key has no cascade.
- `Listing` (`listing.dfy`): the `createdAt`-descending listing, built as an insertion sort over the ids in use.
- `Pagination` (`pagination.dfy`): the query defaults, the skip/take window, the ceiling division behind `totalPages`, and which page shows which position.
- `Handlers` (`handlers.dfy`): the six route handlers.
- `Server` (`server.dfy`): dispatch of a routed request, and a run of many requests.
- `Properties` (`properties.dfy`): lemmas relating handlers to each other and to independent descriptions of their results.

Request fields arrive already parsed. A route's `:id` is the `int` that `parseInt` produced from it (see "## Left out" for how the handlers differ in parsing it). A paginate query parameter is an `Option<int>`, where `None` stands for the NaN that `parseInt` returns for a missing or non-numeric string. The database clock reading stored as `createdAt` is the parameter `now` of `CreateUser`.

Ordering ties: `orderBy: { createdAt: 'desc' }` leaves the order of rows with equal `createdAt` to the database. The model breaks ties by ascending id. That way the full listing and every page are cut from one sequence. `SortedUnique` shows the listing is the only strictly ordered arrangement of the store's rows.

Two facts about the code that shape the model:

- The create reply carries only the message `User Created Successfully!`, not the new user or its id. `CreateThenGet` therefore looks the user up under the id the store hands out (`nextId`).
- `??` treats `null` like `undefined`, so `status` defaults to `true` in both cases (`Values.Nullish`).

## Model

| member | source | states |
|---|---|---|
| Store.InsertUser | server/server.js:17-31 | the created row gets a fresh id (the next autoincrement value); every existing row is kept unchanged; the store stays valid |
| Store.ReplaceUser | server/server.js:141-145 | an update replaces only the target row; the set of ids and every other row are unchanged |
| Store.DeleteProfileRow | server/server.js:173-177 | removing the profile row leaves the user row, with no profile, and every other row as they were |
| Store.DeleteUserRow | server/server.js:179-181 | allowed only once the user has no profile row (foreign key without cascade); afterwards exactly that id is gone and the other rows are untouched |
| Listing.Sort | server/server.js:47-49 | the result is strictly newest first (ties broken by id), has the same length and exactly the same elements as the input |
| Listing.ListAll | server/server.js:43-50 | holds each row of the store exactly once, newest first: an entry is in the listing iff it is a row of the store, and the length equals the number of users |
| Pagination.OrDefault | server/server.js:60-61 | a NaN or 0 query value gives the default; any other parsed value is used unchanged |
| Pagination.Window | server/server.js:66-67 | skip/take: at most `take` elements, exactly those from position `skip` on, none when `skip` is past the end |
| Pagination.CeilDiv | server/server.js:80 | `totalPages` is the least q with q*limit >= total: q*limit >= total and (q-1)*limit < total |
| Pagination.PageSlice | server/server.js:62-74 | page p with limit L has at most L elements: those at positions (p-1)*L onward of the ordered result, clipped at its end |
| Pagination.EveryIndexOnOnePage | server/server.js:62-80 | position i of the ordered result is shown on page i/L+1, at place i mod L, that page is at most totalPages, and no other page covers position i |
| Pagination.DistinctPagesShareNothing | server/server.js:62-74 | two different pages of a repetition-free sequence show no element in common |
| Handlers.CreateUser | server/server.js:13-38 | replies 201 with the success message; adds exactly one user under a fresh id with the given email, name and bio and the clock reading as createdAt; a nullish status (`Values.Nullish`: `undefined` or `null`) is stored as true, any other status (false included) as given; existing users are unchanged |
| Handlers.AllUsers | server/server.js:41-56 | replies 200 with every user of the store exactly once, newest first; the store is unchanged |
| Handlers.Paginate | server/server.js:59-86 | replies 200, store unchanged; page and limit take their defaults for NaN or 0; total is the number of users; totalPages is the ceiling of total/limit; the users are at most limit and are exactly the window (page-1)*limit onward of the newest-first listing, clipped at its end |
| Handlers.GetUser | server/server.js:89-107 | replies 200 with the user and its profile when the id exists, 404 "User not found" otherwise; never changes the store |
| Handlers.BuildPatch | server/server.js:124-139 | email, name and bio enter the patch iff their value is truthy (`Values.Truthy`: `undefined`, `null`, `false`, `0` and `""` are falsy), status iff it is a boolean; the profile sub-patch is present iff at least one profile field entered it |
| Handlers.ApplyPatch | server/server.js:141-145 | the update is refused exactly when it carries a profile sub-patch and the user has no profile row; otherwise each column named by the patch takes the patch's value, every other column and createdAt keep theirs, and without a sub-patch the profile is untouched |
| Handlers.UpdateUser | server/server.js:110-155 | 404 and no change for a missing id; otherwise only supplied fields change (a truthy email/name/bio, a boolean status), createdAt, the other fields and every other user are unchanged, and the reply is 200 with the updated user; a profile field sent for a user without a profile fails with 500 and no change |
| Handlers.DeleteUser | server/server.js:158-188 | 404 and no change for a missing id; otherwise 200, exactly that user (and with it its profile) is gone, and every other user is untouched; the body has to remove the profile row before the user row, because Store.DeleteUserRow requires it |
| Server.Handle | server/server.js:13-188 | every handler keeps the store valid; reads never change it; only a create adds an id, namely nextId; no request changes the createdAt of a user that survives it |
| Server.Run | server/server.js:13-188 | over any sequence of requests the store stays valid and the id counter never goes back; an id below the counter and absent at the start is absent at the end; a user present at both ends keeps its createdAt |
| Server.RunAppend | server/server.js:13-188 | serving `a` and then `b` is the same as serving `a + b` |
| Server.RunFromMidpoint | server/server.js:13-188 | Run's guarantees hold from every point of a run: an id handed out by then and absent then is absent at the end, and a user present then and at the end (including one created during the run) keeps its createdAt |
| Server.RunDeleteFirst | server/server.js:158-188 | a run that starts with a delete is the rest of the run served from the store the delete leaves |
| Server.DeletedStaysGone | server/server.js:169-181 | a delete at any point of a run that finds its user leaves that id absent at the end of the run |
| Properties.CreateThenGet | server/server.js:17-31 | after a create, a lookup of the new id returns 200 with exactly the email, name, bio, createdAt and defaulted status that were sent |
| Properties.CreateThenDelete | server/server.js:173-181 | deleting the user just created gives back the previous users; only the id counter has moved on |
| Properties.DeleteThenGet | server/server.js:169-181 | after a delete of any id, a lookup of that id returns 404 |
| Properties.DeleteTwice | server/server.js:169-171 | a second delete of the same id replies 404 and changes nothing |
| Properties.ApplyPatchIdempotent | server/server.js:141-145 | applying a patch to its own result gives the same user again |
| Properties.UpdateIdempotent | server/server.js:124-145 | repeating the same partial update gives the same reply and leaves the store as the first one left it |
| Properties.UpdateThenGet | server/server.js:141-150 | the user in a successful update's reply is the one a later lookup returns |
| Properties.EmptyUpdateChangesNothing | server/server.js:124-145 | an update whose fields are all falsy, with a non-boolean status, leaves the store unchanged (an empty string never clears a field) |
| Properties.SortedUnique | server/server.js:47-49 | two strictly newest-first sequences with the same elements are equal |
| Properties.ListAllIsTheOrdering | server/server.js:43-51 | any strictly newest-first arrangement of exactly the store's rows is what list-all returns |
| Properties.PaginateShowsEveryUser | server/server.js:62-80 | every user of the listing appears on page i/limit+1, which is within totalPages, at the position that matches its place in the listing |
| Properties.PagesAreDisjoint | server/server.js:62-74 | two different pages never show the same user |

## Left out

- Express setup, body-parsing middleware, CORS, `app.listen` and the SIGINT shutdown handler (server/server.js:1-10, 191-208): process and network plumbing.
- The Prisma client and its connection (server/prisma/database.js): replaced by the in-memory store. Field values are stored exactly as the request sent them, with no column-type check.
- Two facts about the database schema are assumed, because the schema file is not part of this model. First, ids come from an autoincrement counter that never hands out an id twice (`Store.Valid`, `nextId`). Second, the profile's foreign key to the user has no cascade (the precondition of `Store.DeleteUserRow`). The second matches the handler deleting the profile itself. `Server.Run`, `Server.RunFromMidpoint` and `Server.DeletedStaysGone` rely on the first. A MySQL server before 8.0 resets the counter to the largest id plus one on restart, so there the highest deleted id can be handed out again after a restart.
- The 500 replies from the `catch` blocks, apart from the one update case below. Database failures, email uniqueness violations and column-type rejections are not decided by the application code.
- Handlers.UpdateUser: the 500 reply is modelled for one database refusal only: a nested profile update for a user who has no profile row.
- `parseInt` string parsing and the floating-point `Math.ceil`: handlers take the parsed integer (`None` for NaN), and `totalPages` is integer ceiling division. A non-numeric `:id` (NaN) is not modelled.
- The handlers parse `:id` differently. GET uses `parseInt(id, 10)` (server/server.js:90). PATCH and DELETE use `parseInt(id)` with no radix (server/server.js:116, 142, 163, 175, 180), which reads a `0x` prefix as hexadecimal. So the path `/api/users/0x1A` means id 0 to GET but id 26 to PATCH and DELETE. The model takes one parsed id per request. The lemmas that combine handlers (`Properties.UpdateThenGet`, `Properties.DeleteThenGet`, `Properties.CreateThenGet`) are about the same parsed id, not about the same path.
- Handlers.Paginate: requires the parsed `page` and `limit` to be non-negative. With a negative value, the result depends on how the database client treats a negative skip or take, and that code is not part of this model.
- Server.Handle: requires the same non-negative paginate parameters (`Admissible`), for the same reason.
- Arrays and objects as body values: urlencoded repeated keys and nested JSON are not values of `Value`.
- Concurrency: interleaving between requests, and the race between the paginate query and its count query. The model serves requests one at a time, so `total` always equals the size of the listing.
- Order of rows with equal `createdAt`: left to the database by the source, fixed to ascending id here.
- Properties.PaginateShowsEveryUser: holds in the program only when `createdAt` values are distinct. Each page is a separate query ordered by `createdAt` alone (server/server.js:65-74), so with ties two queries may order the tied rows differently, and a user can then be missed by every page.
- Properties.PagesAreDisjoint: holds in the program only when `createdAt` values are distinct, for the same reason: with ties two pages can show the same user.
- client/src/stores/usersStore.js, client/src/router.js, client/src/main.js: frontend fetch calls, a static route table matched by vue-router, and app bootstrap. These are network and UI code.
