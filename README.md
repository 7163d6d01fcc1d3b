# A verified model of the ai-dev-tools-zoomcamp demo apps

This project models in Dafny the four parts of the repository that hold real logic, and proves their properties.

- **The browser snake game** (`SnakeGame.jsx`). A snake of cells moves one cell per timer tick on a 15 × 15 grid. In `walls` mode, leaving the grid ends the game. In any other mode, the head wraps around with JavaScript's `%`. Hitting any current segment ends the game. That includes the tail, even though the tail would move out of the way, so a 180° turn ends a snake of length two or more. Eating the food grows the snake and the score by one and places new food. Otherwise the last segment is dropped.
  - `SnakeGame.Step` is the pure specification of a tick.
  - `SnakeGame.SnakeBoard` holds the component's state hooks as fields. Its `Tick` method updates them in place, the way the interval callback does, and is proved equal to `Step`.
  - The two `onGameOver`/`onScore` callbacks become the returned `Notice`.
  - The cell-index mapping used for drawing is modelled as well.
- **The snake backend** (`main.py`, `models.py`). `SnakeBackend.SnakeApi` holds the in-memory session dictionary (token → user id) and the `users`, `leaderboard` and `games` tables.
  - Handlers that write are methods, as is `GetGameState`, whose snapshot is a random choice. The other handlers only read and are functions.
  - A JSON field the client may leave out is an `Option`.
  - SQL `NOT NULL` and `UNIQUE` violations are modelled as the `IntegrityError` the commit raises. `signup` catches it. `submit_score` does not, which gives a 500.
  - The leaderboard read sorts by score, best first, and keeps ten entries.
- **The TODO app** (`views.py`). `Todos.FilterByStatus` is the list view's status filter. `Todos.TodoStore` holds the table as a map from primary key to record; its create, update, delete and toggle views are methods.
- **The markdown indexers** (`extract_md_files.py`, `search.py`). Both scripts loop over an archive's entries. They keep `.md`/`.mdx` names and drop the name's first path component. `MdArchive.Collect` is the specification of that loop. Each script's loop is proved to compute it with that script's own stripping rule, and the two rules are proved to agree on every name.

Two facts about the code shape the model:
- `SnakeGame.jsx` implements snake movement itself, and that movement is modelled here.
- Signup also answers "User exists" when `username` or `password` is missing. The missing value breaks a `NOT NULL` constraint at commit (models.py:8-9), and signup catches that error like the `UNIQUE` one.

Randomness becomes inputs:
- The login token (`uuid4`) is a parameter that must not be bound yet.
- The food cell for `Math.random` is a parameter drawn from the grid.
- The placeholder game snapshot is any value within the bounds the handler draws from.

## Model

| member | source | states |
|---|---|---|
| `SnakeGame.Delta` | 02-end-to-end/frontend/src/components/SnakeGame.jsx:8-13 | each arrow key moves by one of the four unit vectors |
| `SnakeGame.JsRem` | 02-end-to-end/frontend/src/components/SnakeGame.jsx:45-47 | JavaScript's `%` by a positive divisor: the remainder lies strictly between `-n` and `n`, takes the dividend's sign and equals Dafny's remainder for a non-negative dividend |
| `SnakeGame.Wrap` | 02-end-to-end/frontend/src/components/SnakeGame.jsx:45-47 | a coordinate at most one grid width below zero wraps into 0..14 |
| `SnakeGame.ModeOf` | 02-end-to-end/frontend/src/components/SnakeGame.jsx:41 | the board is in walls mode if and only if the `mode` prop is exactly "walls"; every other string wraps |
| `SnakeGame.WrapInRange` | 02-end-to-end/frontend/src/components/SnakeGame.jsx:45-47 | a wrapped coordinate differs from the raw one by a multiple of 15, is unchanged inside the grid, and takes -1 to 14 and 15 to 0 |
| `SnakeGame.Advance` | 02-end-to-end/frontend/src/components/SnakeGame.jsx:38-40 | the copied head plus the direction's vector moves exactly one cell along one axis |
| `SnakeGame.Placed` | 02-end-to-end/frontend/src/components/SnakeGame.jsx:41-47 | with walls the moved head is kept as is; in pass-through mode it is wrapped into the grid |
| `SnakeGame.Step` | 02-end-to-end/frontend/src/components/SnakeGame.jsx:36-61 | a tick keeps the snake non-empty, grows it by at most one segment, grows the score by exactly as much as the snake, and fires `onScore` exactly when the score grows, with the new score |
| `SnakeGame.StepEndsGame` | 02-end-to-end/frontend/src/components/SnakeGame.jsx:41-51 | a tick ends the game if and only if the head leaves the grid in walls mode or lands on any current segment, tail included; the snake, food and score then stay unchanged and `onGameOver` gets the score |
| `SnakeGame.StepHitsWall` | 02-end-to-end/frontend/src/components/SnakeGame.jsx:41-44 | in walls mode, a head outside the grid sets game over and changes nothing else |
| `SnakeGame.StepEats` | 02-end-to-end/frontend/src/components/SnakeGame.jsx:52-55 | a surviving tick onto the food prepends the head and keeps every segment; length and score grow by exactly one, the food is replaced and `onScore` gets the new score |
| `SnakeGame.StepMoves` | 02-end-to-end/frontend/src/components/SnakeGame.jsx:52-58 | a surviving tick elsewhere keeps the length; the body is the old snake minus its last segment; score and food stay |
| `SnakeGame.StepMovesHeadByDelta` | 02-end-to-end/frontend/src/components/SnakeGame.jsx:38-47 | a surviving tick moves the head by the direction's unit vector: exactly in walls mode, modulo 15 in pass-through mode |
| `SnakeGame.StepAfterGameOver` | 02-end-to-end/frontend/src/components/SnakeGame.jsx:34-36 | once the game is over a tick changes nothing and fires no callback |
| `SnakeGame.StepPreservesInv` | 02-end-to-end/frontend/src/components/SnakeGame.jsx:41-58 | a tick keeps the snake non-empty, inside the grid and free of repeated cells, keeps the food in the grid and the score non-negative |
| `SnakeGame.InitialBoardValid` | 02-end-to-end/frontend/src/components/SnakeGame.jsx:3-7 | the initial snake `[(7,7)]`, food `(3,3)` and score 0 satisfy the invariant |
| `SnakeGame.Run` | 02-end-to-end/frontend/src/components/SnakeGame.jsx:34-63 | every board reached by a sequence of ticks from a valid board satisfies the invariant |
| `SnakeGame.ReachableBoardsValid` | 02-end-to-end/frontend/src/components/SnakeGame.jsx:16-20 | every board reachable from the initial state satisfies the invariant |
| `SnakeGame.RunAfterGameOver` | 02-end-to-end/frontend/src/components/SnakeGame.jsx:34-35 | after game over no number of further ticks changes the board |
| `SnakeGame.CellAt` | 02-end-to-end/frontend/src/components/SnakeGame.jsx:70 | square `i` is drawn for the cell `(i % 15, floor(i / 15))`, which lies in the grid; `CellAtIndexOf` makes it a bijection with `IndexOf` |
| `SnakeGame.IndexOf` | 02-end-to-end/frontend/src/components/SnakeGame.jsx:69-70 | the square index of a cell, in 0..224 for every grid cell; the inverse of `CellAt` by `IndexOfCellAt` |
| `SnakeGame.CellAtIndexOf` | 02-end-to-end/frontend/src/components/SnakeGame.jsx:69-70 | each index 0..224 maps to a grid cell (`i % 15`, `floor(i / 15)`) whose index is `i` again |
| `SnakeGame.IndexOfCellAt` | 02-end-to-end/frontend/src/components/SnakeGame.jsx:69-70 | each grid cell has an index in 0..224 that maps back to it, so the mapping is a bijection |
| `SnakeGame.RenderShowsCell` | 02-end-to-end/frontend/src/components/SnakeGame.jsx:69-73 | each grid cell is drawn at its own square, marked snake if and only if a segment is there and food if and only if the food is there |
| `SnakeGame.Render` | 02-end-to-end/frontend/src/components/SnakeGame.jsx:69-73 | the board is drawn as exactly 225 squares |
| `SnakeGame.SnakeBoard.constructor` | 02-end-to-end/frontend/src/components/SnakeGame.jsx:15-20 | mounting starts from the initial snake, food, rightward direction, score 0, game not over; a `mode` prop left out defaults to "walls", and any mode other than "walls" wraps |
| `SnakeGame.SnakeBoard.SetDir` | 02-end-to-end/frontend/src/components/SnakeGame.jsx:27-28 | an arrow key sets the direction used by the next tick |
| `SnakeGame.SnakeBoard.Tick` | 02-end-to-end/frontend/src/components/SnakeGame.jsx:36-61 | the in-place tick leaves exactly the state and callback `Step` specifies, keeps the invariant and does not change the direction |
| `SnakeGame.MoveHead` | 02-end-to-end/frontend/src/components/SnakeGame.jsx:38-40 | the copied head moves by the direction's vector, at most one cell along each axis |
| `SnakeGame.WrapHead` | 02-end-to-end/frontend/src/components/SnakeGame.jsx:46-47 | both coordinates are wrapped in place, landing inside the grid when neither is more than one grid width below zero |
| `SnakeGame.SnakeBoard.Slither` | 02-end-to-end/frontend/src/components/SnakeGame.jsx:52-59 | on the food the new head is prepended to the whole snake, the score grows by one, `nextFood` is placed and `onScore` gets the new score; elsewhere the last segment is dropped and score and food stay |
| `SnakeBackend.Matches` | 02-end-to-end/backend/main.py:47 | a row matches if and only if both fields are present and equal its `username` and `password`; a missing field matches no row |
| `SnakeBackend.FindByCredentials` | 02-end-to-end/backend/main.py:47-48 | a returned user is stored and matches both fields; no result means no stored user matches both (a missing field matches nothing) |
| `SnakeBackend.FindById` | 02-end-to-end/backend/main.py:76-77 | a returned user is stored with that id; no result exactly when no user has the id |
| `SnakeBackend.UnbindTwice` | 02-end-to-end/backend/main.py:84-88 | logging out twice with the same token leaves the same sessions as logging out once |
| `SnakeBackend.Unbind` | 02-end-to-end/backend/main.py:86-87 | after `del sessions[token]` the given token is unbound, and every other token keeps its binding and its user id |
| `SnakeBackend.InsertByScore` | 02-end-to-end/backend/main.py:93 | inserting into a best-first list keeps it best first and adds exactly that entry |
| `SnakeBackend.SortByScoreDesc` | 02-end-to-end/backend/main.py:93 | the ordering by score descending is sorted best first and a permutation of the table |
| `SnakeBackend.TopEntries` | 02-end-to-end/backend/main.py:93 | `limit(10)` returns at most 10 entries |
| `SnakeBackend.TopEntriesCountAndOrder` | 02-end-to-end/backend/main.py:93-95 | the leaderboard read returns exactly min(10, stored) entries, best first |
| `SnakeBackend.TopEntriesAreBest` | 02-end-to-end/backend/main.py:93-94 | the returned entries are drawn from the table, and no stored entry left out scores more than a returned one |
| `SnakeBackend.TopEntriesKeepBetter` | 02-end-to-end/backend/main.py:93 | a stored entry that scores more than some returned entry is itself returned |
| `SnakeBackend.MaxId` | 02-end-to-end/backend/models.py:7 | the largest key of a key column, or 0 for an empty table, bounds every stored key and is one of them; a new row's integer primary key is one more |
| `SnakeBackend.MaxIdAppend` | 02-end-to-end/backend/models.py:7 | a row stored under a key above the largest one makes that key the largest |
| `SnakeBackend.AddUserKeepsKeys` | 02-end-to-end/backend/models.py:5-9 | a user with a free username under the next key keeps the keys distinct and positive and the usernames unique |
| `SnakeBackend.AddEntryKeepsKeys` | 02-end-to-end/backend/models.py:11-15 | an entry under the next key keeps the keys distinct and positive |
| `SnakeBackend.FindGame` | 02-end-to-end/backend/main.py:120-121 | a returned game is stored with that id; no result means no game has the id |
| `SnakeBackend.ListedGamesResolve` | 02-end-to-end/backend/main.py:110-121 | with unique primary keys, looking up a listed game's id finds exactly that game |
| `SnakeBackend.ToRow` | 02-end-to-end/backend/main.py:95 | a response row carries the entry's `username` and `score` and drops its key |
| `SnakeBackend.ToRows` | 02-end-to-end/backend/main.py:95 | the response list has one row per entry, in order, and every entry's row appears in it |
| `SnakeBackend.SnakeApi.constructor` | 02-end-to-end/backend/main.py:28 | the process starts with an empty session dictionary over the tables the database file already holds (any tables with distinct, positive keys and unique usernames), the next keys one above the largest stored ones |
| `SnakeBackend.SnakeApi.Login` | 02-end-to-end/backend/main.py:43-53 | a user matching both fields gets the fresh token bound to its id and the reply carries token and username; otherwise "Invalid credentials" and the sessions stay unchanged |
| `SnakeBackend.SnakeApi.Signup` | 02-end-to-end/backend/main.py:56-67 | with both fields present and a free username, appends exactly one user under the next id and advances that id by one; otherwise "User exists" and the table stays unchanged (usernames stay unique, models.py:8) |
| `SnakeBackend.SnakeApi.GetUser` | 02-end-to-end/backend/main.py:70-80 | returns the bound user's username if and only if the token is bound to a non-zero id that has a user row, otherwise 401; every bound token resolves while the tables are consistent |
| `SnakeBackend.SnakeApi.Logout` | 02-end-to-end/backend/main.py:83-88 | always succeeds, unbinds only the given token, and afterwards that token gets 401 from `/user` |
| `SnakeBackend.SnakeApi.GetLeaderboard` | 02-end-to-end/backend/main.py:91-95 | at most 10 rows, exactly 10 if at least 10 are stored, all stored entries, sorted by non-increasing score; the rows are those of a sub-multiset of the stored entries, so no entry is returned more often than it is stored; a stored entry that scores more than a returned row is itself returned |
| `SnakeBackend.SnakeApi.SubmitScore` | 02-end-to-end/backend/main.py:98-105 | with both fields present and a score in the signed 64-bit range, appends exactly one `(username, score)` entry under the next id and advances that id by one; otherwise a server error and the table and next id stay unchanged |
| `SnakeBackend.SnakeApi.GetActiveGames` | 02-end-to-end/backend/main.py:108-115 | returns exactly the stored games, in table order, and each listed id can be looked up as that very game |
| `SnakeBackend.SnakeApi.GetGameState` | 02-end-to-end/backend/main.py:118-134 | an id outside the signed 64-bit range gives a server error; otherwise 404 for an unknown id, else echoes id, owner and mode with exactly two snake cells and a food cell in 0..9 and a score in 0..20 |
| `Todos.FilterByStatus` | 01-todo/todos/views.py:12-19 | the list view never shows more rows than the table holds, and shows only the table's rows |
| `Todos.FilterByStatusSpec` | 01-todo/todos/views.py:12-19 | `resolved` keeps exactly the resolved rows, `pending` exactly the unresolved ones, any other or no status keeps the full list; the result is always an order-preserving subsequence |
| `Todos.ResolvedPendingPartition` | 01-todo/todos/views.py:15-18 | the resolved and pending lists together hold every row exactly once |
| `Todos.ListShowsTable` | 01-todo/todos/views.py:12-19 | whatever the query order, a record is in the resolved list if and only if the table holds it resolved (pending likewise), and listed rows are the table's records |
| `Todos.Toggled` | 01-todo/todos/views.py:42-46 | toggling flips only the target's `resolved`, keeps every other record and key, and changes nothing for a missing key |
| `Todos.ToggledTwice` | 01-todo/todos/views.py:42-46 | toggling the same record twice restores the table |
| `Todos.TodoStore.Create` | 01-todo/todos/views.py:22-26 | adds exactly one record under a new key, unresolved whatever was posted, and redirects to the list |
| `Todos.TodoStore.Update` | 01-todo/todos/views.py:29-33 | replaces the record's title, description, due date and `resolved` (false when the box is not posted); 404 and no change for a missing key |
| `Todos.TodoStore.Delete` | 01-todo/todos/views.py:36-39 | removes exactly the named record, so the count drops by one; 404 and no change for a missing key |
| `Todos.TodoStore.ToggleResolved` | 01-todo/todos/views.py:42-46 | the table becomes `Toggled` of the old one; redirect when the key exists, 404 otherwise |
| `MdArchive.IsMarkdownName` | 03-mcp/extract_md_files.py:18 | a name is accepted if and only if it ends in `.md` or in `.mdx` |
| `MdArchive.Collect` | 03-mcp/extract_md_files.py:16-26 | the loop keeps at most one record per archive entry |
| `MdArchive.SplitOnce` | 03-mcp/extract_md_files.py:22 | `split('/', 1)` gives one part (the whole name) if and only if there is no `/`, otherwise the text before the first `/` and everything after it |
| `MdArchive.AfterFirstSlashUnique` | 03-mcp/extract_md_files.py:21-22 | only one string follows the first `/` of a name |
| `MdArchive.CollectIsFilterThenRename` | 03-mcp/extract_md_files.py:16-26 | the output has one record per `.md`/`.mdx` entry, in archive order, each carrying the stripped name and the entry's content |
| `MdArchive.MarkdownEntriesInOrder` | 03-mcp/extract_md_files.py:17-18 | the kept entries are exactly the archive's markdown entries, as an order-preserving subsequence |
| `ExtractMdFiles.StripTopDir` | 03-mcp/extract_md_files.py:20-22 | a name with a `/` becomes everything after its first `/`, a name without one stays unchanged, and the result is always a suffix of the name |
| `ExtractMdFiles.GetMdFilesFromZip` | 03-mcp/extract_md_files.py:14-26 | the loop produces exactly the specified records |
| `Search.StripTopDir` | 03-mcp/search.py:27-31 | with two parts from the split the name becomes what follows the first `/`; with one part it stays unchanged |
| `Search.StripAgrees` | 03-mcp/search.py:27-31 | the split-based rule names every entry the same as the other script's membership-based rule |
| `Search.GetMdFilesFromZip` | 03-mcp/search.py:21-35 | the loop produces exactly the specified records |
| `Search.SameRecordsAsExtract` | 03-mcp/search.py:22-35 | both scripts extract the same records from every archive |

## Left out

- Rendering, CSS classes and the "Game Over" banner are left out (UI code). Only the index-to-cell mapping and the per-square snake/food marks are modelled.
- The `setInterval` timing and React's effect re-installation are left out. A tick is one call, and ticks after game over are no-ops.
- The keydown lookup `DIRS[e.key]` is left out: `SetDir` receives a direction directly. Unknown keys are ignored in the source anyway.
- `SnakeGame.SnakeBoard.Tick`: the new food cell is a parameter required to lie in the grid, instead of `Math.random`. It may land on the snake, as in the source.
- `SnakeBackend.SnakeApi.Login`: `uuid4` is a fresh-token parameter. The source only relies on collisions being improbable, so this is assumed rather than proved.
- `SnakeBackend.SnakeApi.GetGameState`: the seven `random.randint` draws are non-deterministic choices within their bounds. No distribution is modelled.
- The source breaks ties among equal leaderboard scores however the database likes. `SortByScoreDesc` fixes one tie order: the earlier-stored entry comes first. That order is not proved.
- The keys of users and leaderboard entries are one above the largest stored key, as SQLite hands out rowids. Nothing here deletes users or entries.
- `Todos.TodoStore.Create`: promises only a key not in use. How keys are allocated depends on the `Todo` model and the database settings, and neither file is part of this model.
- JSON field values of the wrong type are left out: the field types are `Option<int>` for `score` and `Option<string>` for `username` and `password`. In the source, a number sent as `username` or `password` would be stored as text. A list or object fails to bind, raising an error that `except IntegrityError` does not catch, so `signup` and `login` would answer 500. `Signup` and `Login` never answer 500.
- `SnakeBackend.SnakeApi.constructor`: a database holding a key of 0 or below is not modelled. The schema has no check against one, but only an insert from outside this app can create one, since SQLite's rowid allocation starting from an empty table never does.
- `SnakeBackend.SnakeApi.Signup`, `SnakeBackend.SnakeApi.SubmitScore`: keys past the signed 64-bit maximum are left out. The model hands out one above the largest stored key without bound, while SQLite then picks an unused key at random.
- HTTP routing, CORS, status codes other than 401/404/500, the async database session and `get_db` become direct calls on one object.
- The concurrent, unsynchronised access to `sessions` from async handlers is left out. Every handler is one atomic step.
- Passwords are compared as stored plain text, as the source does. Hashing is not part of this model.
- The `/` homepage message handler is not modelled.
- Todo list ordering (newest first) is left out: it comes from the `Todo` model's ordering, and that file is not part of this model. The filter is stated for any enumeration of the table.
- Form validation is left out: which fields are required and how dates parse depend on that same `Todo` model. The `created_at`/`updated_at` timestamps and the templates are left out for the same reason.
- Reading the zip file, `decode(errors='ignore')`, the `minsearch` index (`build_index`, `search_index`), the downloads and the command-line `__main__` code are left out (I/O and a foreign library). An entry's content is taken as already-decoded text.
