# Daily-diet API: a Dafny model of its route handlers

The daily-diet API lets a user register with a username and receive a
session id in a cookie. With that cookie the user creates, lists, reads,
updates and deletes "snacks" (meals flagged on or off the diet) and asks for
a summary: how many snacks in total, how many on and off the diet, and the
best sequence of on-diet snacks.

This project models the two route modules, `src/routes/snacks.ts` and
`src/routes/users.ts`. The two tables, `users` and `snacks`, are in-memory
state in a `Database` object, next to the counters that hand out their
auto-increment ids. Each HTTP handler is one atomic step on that state:

- `wrappers.dfy`: `Option`, which stands for JavaScript's `undefined` and `null`.
- `tables.dfy`: the row types `User` and `Snack`, and the class `Database`.
  Its `Valid()` says that ids are unique, positive and below their counter,
  that rows are kept in id order, and that every snack names an existing user.
- `replies.dfy`: the `{status, data}` envelope with its HTTP status code.
- `islands.dfy`: the gaps-and-islands computation of `best_sequence`,
  written the way the query does it: `row_number()` in id order, a group
  key of `id - seqnum`, `count(*)` per group, then the largest count. Beside
  it is the meaning of that figure: the longest block of ids that are
  consecutive integers. The two are proved equal.
- `summary.dfy`: the summary aggregate (`total`, `on_diet`, `not_on_diet`,
  `best_sequence`) and its lemmas.
- `snack_routes.dfy`: the six `/snacks` handlers. Summary, list and get are
  functions of the tables. Create, update and delete are methods that change
  `db.snacks`, and their `modifies` frame lists only the fields they touch.
- `user_routes.dfy`: the `POST /users/` get-or-create handler.

On two points a reader might expect other behaviour; the model follows the code:

- When the caller has no on-diet snack, the summary query's `best_sequence`
  expression is empty. Its `join ... 1 = 1` then removes every row, so the
  handler answers `data: undefined`, not a zero `best_sequence`.
  `SummaryOf` returns `None` in that case.
- `best_sequence` is computed only over the caller's on-diet snacks, numbered
  by id. A block therefore ends at any missing id: an off-diet snack, another
  user's snack or a deleted row. It is not a run of consecutive snacks in the
  caller's own list.

## Model

| member | source | states |
|---|---|---|
| `SnackRoutes.ResolveSession` | src/routes/snacks.ts:18-26 | finds nothing exactly when no user row carries the session id; otherwise returns the first user row that carries it |
| `SnackRoutes.Summarize` | src/routes/snacks.ts:18-93 | 403 "Session ID does not exist" exactly when the session id is unknown; otherwise 200 with the session user's summary, which is undefined exactly when that user has no on-diet snack and otherwise has total = on_diet + not_on_diet |
| `Summary.SummaryOf` | src/routes/snacks.ts:28-88 | no row exactly when the user has no on-diet snack; a row has total = on_diet + not_on_diet and 1 <= best_sequence <= on_diet; what each count counts is stated by `Summary.SummaryCounts` |
| `Summary.IdsWhere` | src/routes/snacks.ts:35-52 | an id is selected exactly when some row of the table with that id belongs to the user and carries the requested on_diet flag; the selection is no longer than the table |
| `Summary.SummaryCounts` | src/routes/snacks.ts:28-56 | on a table in id order, a summary row's total is the number of the user's snacks, on_diet the number of the user's on-diet snacks and not_on_diet the number of the user's off-diet snacks |
| `Summary.TotalSplits` | src/routes/snacks.ts:28-56 | the user's snack count equals the size of the on-diet selection plus the size of the off-diet selection |
| `Summary.IdsWhereEmpty` | src/routes/snacks.ts:47-52 | the selection of a user's ids with one flag is empty exactly when that user has no snack with that flag |
| `Summary.SummaryIgnoresOtherUsers` | src/routes/snacks.ts:28-87 | all four figures are unchanged when every other user's rows are removed from the table |
| `Summary.BestSequenceIsLongestOnDietRun` | src/routes/snacks.ts:59-80 | on a table in id order, best_sequence is the length of a block of the user's on-diet ids that are consecutive integers, and no such block is longer |
| `Summary.SevenSnackScenario` | src/routes/snacks.ts:28-88 | seven snacks of one user with ids 1 to 7, flagged on, on, off, on, on, on, off, give total 7, on_diet 5, not_on_diet 2 and best_sequence 3 |
| `Summary.IdsWhereIncreasing` | src/routes/snacks.ts:63-74 | selecting from a table in id order yields ids in increasing order, so the id order of `row_number()` is the selection order |
| `Islands.RowNumber` | src/routes/snacks.ts:65-67 | the row number of an id is at most the number of rows, and at least 1 when the id is among them |
| `Islands.GroupKeys` | src/routes/snacks.ts:63-76 | one key per selected row; rows with the same id get the same key, and each key is below its id because the row number is at least 1 |
| `Islands.LargestGroup` | src/routes/snacks.ts:75-79 | no group is larger than the result, and for a non-empty list of keys some group has exactly that count; for no keys it is 0 |
| `Islands.Count` | src/routes/snacks.ts:60-62 | a group's count is at most the number of rows, and at least 1 when its key occurs |
| `Islands.BestSequence` | src/routes/snacks.ts:59-80 | no row exactly when there are no ids; otherwise a count between 1 and the number of ids |
| `Islands.BestSequenceIsLongestRun` | src/routes/snacks.ts:59-80 | for increasing ids, some block of consecutive integers among the ids has the best_sequence length, and no such block is longer |
| `Islands.KeysOfIncreasing` | src/routes/snacks.ts:63-76 | for increasing ids, row i gets row number i + 1, and the key `id - seqnum` never decreases along the rows |
| `Islands.GroupIsBlock` | src/routes/snacks.ts:75-76 | when keys never decrease, the rows of every group sit at consecutive positions |
| `Islands.RunWithinGroup` | src/routes/snacks.ts:75-79 | every block of consecutive ids lies in one group, so its length is at most the largest group count |
| `Islands.RunFromLargestGroup` | src/routes/snacks.ts:75-79 | the rows of the largest group carry consecutive integer ids |
| `Summary.OwnedBy` | src/routes/snacks.ts:265 | holds exactly the rows whose user_id is the given user |
| `SnackRoutes.ListSnacks` | src/routes/snacks.ts:255-270 | 403 exactly when the session id is unknown; otherwise 200 with exactly the session user's rows |
| `SnackRoutes.FindOwned` | src/routes/snacks.ts:303-306 | returns a table row with that id owned by that user, and finds nothing exactly when no such row exists |
| `SnackRoutes.GetSnack` | src/routes/snacks.ts:284-311 | 403 exactly when the session id is unknown; otherwise 200 with the user's row of that id, or null exactly when the user owns no such row; another user's row is never returned |
| `SnackRoutes.CreateSnack` | src/routes/snacks.ts:107-140 | unknown session: 403 and `snacks` unchanged; otherwise appends exactly one row with an id that no existing row has, the body's name, description and created_at, on_diet as given or false, owned by the user, and returns that row; the database invariant is kept |
| `SnackRoutes.OnDietOf` | src/routes/snacks.ts:121 | the body's on_diet when it was sent, false when it was not |
| `SnackRoutes.Edited` | src/routes/snacks.ts:183-190 | the rewritten row keeps its id, is owned by the session user and carries the body's name, description, created_at and on_diet (false when not sent) |
| `SnackRoutes.UpdateOwned` | src/routes/snacks.ts:183-194 | the table keeps its length and every row's id and owner; a row not matching (id, user) is unchanged and a matching row is rewritten with the body |
| `SnackRoutes.UpdatedRowsMatch` | src/routes/snacks.ts:183-195 | after the update, every row matching (id, user) carries the body's fields, and such a row exists exactly when one existed before |
| `SnackRoutes.UpdateKeepsTable` | src/routes/snacks.ts:183-194 | the update keeps the table in id order, the ids under their counter and every owner an existing user |
| `SnackRoutes.UpdateSnack` | src/routes/snacks.ts:154-200 | unknown session: 403 and `snacks` unchanged; otherwise rewrites only the rows matching (snackId, user), leaves every other row as it was, and returns the rewritten row, or undefined exactly when nothing matched |
| `SnackRoutes.Without` | src/routes/snacks.ts:233-236 | keeps exactly the rows not matching (id, user), and has the same length as the table exactly when nothing matched |
| `SnackRoutes.WithoutIncreasing` | src/routes/snacks.ts:233-236 | deleting rows keeps the table in id order |
| `SnackRoutes.DeleteSnack` | src/routes/snacks.ts:214-241 | unknown session: 403 and `snacks` unchanged; otherwise removes exactly the rows matching (snackId, user); the answer is snackId when a row matched and snackId is not 0, and null otherwise; on a valid database that is exactly when a row was removed |
| `Tables.Database.constructor` | database/migrations/20230418021030_create-user.ts:4-8 | the freshly migrated database has both tables empty, both id counters at 1, and is valid; the `snacks` table comes from database/migrations/20230418021219_create-snacks.ts lines 4-10 and its `user_id` reference to `users` from db/migrations/20230418021913_add-snacks-to-an-user.ts lines 4-11, which `Valid` states as every snack naming an existing user |
| `UserRoutes.FindByUsername` | src/routes/users.ts:14-18 | returns a user row with that username, and finds nothing exactly when no row has it |
| `UserRoutes.FindSurvivesAppend` | src/routes/users.ts:14-28 | once a username is found, appending rows does not change what the lookup finds |
| `UserRoutes.FindAppended` | src/routes/users.ts:20-28 | a row appended for a username that was not found is what the next lookup by that username finds |
| `UserRoutes.Register` | src/routes/users.ts:7-36 | always 201 with `status: 'success'`, and the cookie equals the answered user's session_id; a taken username returns the existing row and leaves the table as it was; an unknown one appends exactly one row holding the next id, the username and the token; old rows stay a prefix of the table, and afterwards the username resolves to the answered user |
| `UserRoutes.RegisterTwice` | src/routes/users.ts:14-28 | registering one username twice answers the same id and session_id both times; when the name was taken the table is unchanged, otherwise it gains exactly the one row answered, so the second call leaves the table as the first left it |

## Left out

- HTTP routing, the reply plumbing and the `async`/`await` of every handler
  are not modelled. Each handler is one atomic step, so the race between the
  session lookup and the write is not modelled.
- The `checkSessionIdExists` pre-handler is left out. When the cookie is
  missing it writes a 403 with `data: []`, but it does not stop the handler.
  The handlers here start from a session id string that is already parsed.
- Request validation is left out: the UUID check on the cookie, the datetime
  check on `created_at` and the integer coercion of `snackId`. Inputs arrive
  already typed, and a validation failure, which would throw, is not modelled.
- The cookie is set under the name `session_id` but read as `sessionId`.
  The model only returns the cookie's value from `Register`, so the name
  mismatch is not part of the model.
- `randomUUID()` is not modelled. Its token is a parameter of `Register`, and
  nothing assumes it is unique.
- Environment and connection set-up (`src/env/index.ts`, `src/db.ts`) and the
  schema migrations are not part of this model. The snacks migration names
  the column `create_at`, while the row type says `created_at`; the model
  uses the row type.
- Summary.SummaryOf: the two left joins are modelled as counts of the user's
  on-diet and off-diet rows. That equals the joins because `id` is a primary
  key. `row_number()` is the number of selected ids not above the row's id,
  which is exact when ids are unique.
- Summary.BestSequenceIsLongestOnDietRun: proved only for tables kept in id
  order, which is every state `Database.Valid` allows, and not for an
  arbitrarily ordered table.
- Islands.BestSequenceIsLongestRun: proved for ids in increasing order only,
  for the same reason.
- Summary.SummaryCounts: proved for tables kept in id order, where no row
  occurs twice, so counting rows and counting distinct rows agree.
- Counts come back from the driver as numbers here; a driver that returns
  them as strings is not modelled.
