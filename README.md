# Payroll sheet backend, modelled in Dafny

This project models the server side of a small payroll tool for
construction crews. Workers come out of photographed documents as
*candidates*. The backend reconciles them against the `user` table by
identity number OR name: each one is inserted, merged into the first match
(after the other matches are deleted) or reported as incomplete. Every
returned worker gets a job tier from its salary: "模板工" at or above the
threshold, "普工" below it. Workers can be listed, patched and deleted by
id. A payroll sheet can be generated for a list of workers. For each worker
it draws a daily wage of 150..260 in steps of 10, and the attendance days
(salary ÷ wage, to one decimal) must not exceed 28, except that a salary of
4900 is always 350 × 14. It numbers the rows, adds a total row, refreshes
each worker's record and appends a snapshot row to the `salary` table. The
latest snapshot sheet can be read back.

Layout, one module per file:

- `Types`: the records.
- `Tables`: what each SQL statement does to the `user` table, as functions on `seq<User>`.
- `Store`: a `Database` class holding both tables as fields, with one method per statement.
- `Classifier`: the job tier and the tagging loop.
- `Fence`: stripping the Markdown fence from the model's reply.
- One module per HTTP handler: `UsersPost`, `UsersGet`, `UsersDelete`, `UsersPatch`, `SheetPost`, `SheetGet`.

Handlers that write are module-level methods that take a `Database` and
modify it. Each one's `ensures` gives the new tables as a function of the
old ones. Lemmas prove what those
functions promise.

How some source behaviours are modelled:

- `Math.random()` becomes a sequence of draws per worker.
- `uuidv4()` becomes a list of fresh ids.
- `Date.now()` becomes a parameter.
- An attendance figure is an integer number of tenths of a day.

Wages are drawn from 150..260 (server/api/sheet.post.ts:82). The retry
loop has no cap, so the model requires draws that let it finish;
`SheetPost.AcceptableWageExists` shows this is possible exactly for
salaries up to 7292.

## Model

| member | source | states |
|---|---|---|
| Types.Assign | server/api/users.patch.ts:7-17 | an UPDATE of the six columns sets exactly those columns to the given values and keeps the id and job |
| Types.Truthy | server/api/users.post.ts:85 | JavaScript truthiness of a text field, present and non-empty, as tested at lines 85, 125 and 158 and by the `\|\| '无'` fallbacks at line 107; `ReconcileStep` and `ReconcileRejects` state its effect |
| Tables.Without | server/api/users.delete.ts:14-21 | a DELETE by ids keeps exactly the rows whose id is not named, and never adds rows |
| Tables.SetWhereId | server/api/users.patch.ts:7-17 | the UPDATE ... WHERE id statement; its properties are `SetWhereIdValid` and `SetWhereIdAbsent`, and `Types.Assign` fixes the updated row |
| Tables.WithoutWithout | server/api/users.delete.ts:14-21 | deleting by one id set and then another equals deleting by their union, which is what issuing one DELETE per id relies on |
| Tables.WithoutAbsent | server/api/users.delete.ts:16-19 | deleting ids no row carries leaves the table unchanged |
| Tables.WithoutAll | server/api/users.delete.ts:14-21 | deleting a set of ids that covers every row empties the table |
| Tables.WithoutValid | server/api/users.post.ts:118-123 | deletion removes exactly the named ids from the key set and keeps the primary key unique |
| Tables.SetWhereIdValid | server/api/users.post.ts:126-136 | an UPDATE by id changes no primary key and keeps the table valid |
| Tables.SetWhereIdAbsent | server/api/users.patch.ts:16 | an UPDATE whose id matches no row changes nothing |
| Tables.Matching | server/api/users.post.ts:80-82 | the lookup returns exactly the rows whose identity or name equals the candidate's; an absent field binds NULL and matches nothing |
| Tables.RowMatches | server/api/users.post.ts:81 | the WHERE condition `identity = ? OR name = ?`, an absent field never matching; `Matching` and `Unmatched` state which rows it selects |
| Tables.Unmatched | server/api/users.post.ts:80-82 | the complement of the lookup: exactly the rows neither field matches |
| Tables.MatchingSplits | server/api/users.post.ts:80-82 | every row is in exactly one of the lookup and its complement |
| Tables.MatchingAppend | server/api/users.post.ts:80-82 | the lookup distributes over concatenation, so an appended row adds only itself |
| Tables.MatchingWithout | server/api/users.post.ts:112-123 | deleting then looking up equals looking up then deleting |
| Tables.MatchingUnique | server/api/users.post.ts:80-82 | the lookup of a table with unique ids has unique ids |
| Store.Database.SelectUsers | server/api/users.get.ts:6 | `SELECT * FROM user` returns the table as stored |
| Store.Database.SelectUsersMatching | server/api/users.post.ts:80-82 | the lookup statement returns the matching rows in table order |
| Store.Database.InsertUser | server/api/users.post.ts:87-91 | INSERT appends the row and keeps ids unique when the id is fresh |
| Store.Database.UpdateUser | server/api/users.post.ts:159-169 | UPDATE ... WHERE id sets the six columns of that row and nothing else |
| Store.Database.DeleteUser | server/api/users.post.ts:121 | DELETE ... WHERE id removes that row and nothing else |
| Store.Database.InsertSalary | server/api/sheet.post.ts:110-113 | INSERT INTO salary appends the snapshot and leaves the user table alone |
| Store.UniqueAppend | server/api/users.post.ts:86-91 | appending a row with a fresh uuid keeps the key unique and adds exactly that id |
| Classifier.JobTier | server/api/users.post.ts:195 | "模板工" exactly when salary >= threshold, "普工" exactly when salary < threshold |
| Classifier.WithJob | server/api/users.post.ts:196 | `user.job = job`: the user with its tier attached; `AssignJobs`, `ListUsers` and `ListingRoundTrip` state that nothing else changes |
| Classifier.AssignJobs | server/api/users.post.ts:193-197 | the same users in the same order, each with its tier, and the template tier exactly when salary >= threshold |
| Fence.StripOpening | server/api/users.post.ts:74 | the first replacement changes the text exactly when it starts with "```json\n" or "\n```json\n", and then removes exactly that fence; otherwise the text is unchanged |
| Fence.StripClosing | server/api/users.post.ts:74 | the second replacement changes the text exactly when it ends with "```" or "```\n", removing four characters when "```\n" ends it and three when "```" does |
| Fence.StripFence | server/api/users.post.ts:74 | the two replacements in sequence; `StripFenceWrapped`, `StripFenceUnfenced` and `StripFenceSlice` state what it does |
| Fence.StripOpeningSlice | server/api/users.post.ts:74 | the first replacement keeps a suffix of the text, at most nine characters shorter |
| Fence.StripClosingSlice | server/api/users.post.ts:74 | the second replacement keeps a prefix of the text, at most four characters shorter |
| Fence.StripFenceWrapped | server/api/users.post.ts:74 | a fenced body, with or without the optional newlines, comes back exactly |
| Fence.StripFenceUnfenced | server/api/users.post.ts:74 | text with neither fence passes through unchanged |
| Fence.StripFenceSlice | server/api/users.post.ts:74 | the result is always a contiguous slice of the reply, at most 9 characters shorter at the front and 4 at the back |
| UsersPost.InsertedSalary | server/api/users.post.ts:89 | `user.salary \|\| 4900`, so an absent or 0 salary becomes 4900; stated for the inserted row by `ReconcileInserts` |
| UsersPost.Complete | server/api/users.post.ts:85 | the completeness test, the same at lines 125 and 158: identity, name, address, bankcard and phone all truthy; `ReconcileStep` and `ReconcileRejects` state that it decides acceptance |
| UsersPost.MergedSalary | server/api/users.post.ts:134 | `user.salary ?? stored salary`, so an absent salary keeps the stored one and 0 is kept; stated for the merged row by `ReconcileMerges` |
| UsersPost.IncompleteMessage | server/api/users.post.ts:107 | the diagnostic for an incomplete candidate, "无" in place of each falsy field; `ReconcileRejects` states that it is the message recorded |
| UsersPost.OrNone | server/api/users.post.ts:107 | `x \|\| '无'`: the field itself when truthy, "无" otherwise, and never the empty string |
| UsersPost.Decimal | server/api/users.post.ts:107 | the integer salary as a template literal renders it: `Digits` below a minus sign for negatives; `DecimalRoundTrip` states that it reads back as the number |
| UsersPost.DigitsRoundTrip | server/api/users.post.ts:107 | the unsigned rendering is non-empty, all digits, has no leading zero except for 0, and reads back as the number |
| UsersPost.DecimalRoundTrip | server/api/users.post.ts:107 | the signed rendering reads back as the number, and a non-negative number renders as digits only |
| UsersPost.CandidateFields | server/api/users.post.ts:129-134 | the six columns a complete candidate writes, as at lines 89 and 162-167, with `.toString()` the identity on strings: every text column is non-empty and the salary is the one given |
| UsersPost.Record | server/api/users.post.ts:137-145 | the user pushed to the response, as at lines 96-104 and 170-178: it carries the given id, no job, and exactly the written columns, so assigning them again changes nothing |
| UsersPost.ReconcileStep | server/api/users.post.ts:78-184 | one candidate is rejected exactly when a required field is falsy, with the incomplete message, and adds at most one row; the lemmas below state the rest |
| UsersPost.Push | server/api/users.post.ts:96-107 | `allUsers.push` or `errorMessages.push`: an accepted user is appended to the users, a message to the messages, the other list is untouched and the table is the step's |
| UsersPost.KeepFirstMatch | server/api/users.post.ts:112-123 | after deleting all matches but the first, that first match is the only matching row, the other rows stay in order and exactly the extra matches are gone |
| UsersPost.UpdateOnlyMatch | server/api/users.post.ts:125-136 | updating the single match with fields that still match leaves it the single match and leaves the other rows alone |
| UsersPost.ReconcileStepValid | server/api/users.post.ts:77-185 | one candidate keeps the table valid and can add no id but the fresh uuid |
| UsersPost.ReconcileRejects | server/api/users.post.ts:106-108 | an incomplete candidate yields the "识别人员信息不完整" message with "无" for falsy fields, inserts and updates nothing, and deletes only the extra matches |
| UsersPost.ReconcileInserts | server/api/users.post.ts:84-104 | a complete candidate without a match is appended under the fresh id with `salary \|\| 4900`, and the same record is returned |
| UsersPost.ReconcileMerges | server/api/users.post.ts:110-183 | a complete candidate with matches inserts nothing; the first match keeps its id, takes the candidate's fields with `salary ?? stored salary`, and is returned |
| UsersPost.ReconcileLeavesOneMatch | server/api/users.post.ts:110-146 | after a complete candidate the returned user is the one and only row matching it |
| UsersPost.ReconcileKeepsUnmatched | server/api/users.post.ts:77-185 | a row matching the candidate on neither field survives the step unchanged and in order |
| UsersPost.ReconcileFrom | server/api/users.post.ts:77-185 | the candidate loop as a fold over the candidates in order; `ReconcileCounts`, `ReconcileFromValid` and `ReconcileFromAppend` state its properties |
| UsersPost.ReconcileCounts | server/api/users.post.ts:77-185 | each candidate contributes exactly one user or one error message, appended in order |
| UsersPost.ReconcileFromValid | server/api/users.post.ts:77-185 | a whole batch keeps the table valid and adds only ids from the fresh uuids |
| UsersPost.FreshPrefix | server/api/users.post.ts:86 | the uuids handed out so far are fresh, and the next one is not among them |
| UsersPost.ReconcileFromAppend | server/api/users.post.ts:77-185 | reconciling one image's candidates and then the next image's equals reconciling their concatenation |
| UsersPost.DeleteAllButFirst | server/api/users.post.ts:118-123 | the inner loop leaves the table without the ids of every match but the first |
| UsersPost.ReconcileCandidate | server/api/users.post.ts:78-184 | the statements issued for one candidate change the table exactly as the reconcile step says and return its outcome |
| UsersPost.PostUsers | server/api/users.post.ts:76-199 | the handler's table, users and messages equal the fold over the candidates, and every returned user is tagged with the 4900 threshold |
| UsersGet.ListUsers | server/api/users.get.ts:4-17 | every stored row, in order, tagged with its tier for the threshold |
| UsersGet.ListingRoundTrip | server/api/users.get.ts:8-16 | dropping the derived job gives back exactly the stored rows |
| UsersDelete.DeleteUsers | server/api/users.delete.ts:1-32 | a missing or empty id list fails with status 500 carrying the 400's message and deletes nothing; otherwise "删除成功." and exactly the named rows are gone |
| UsersDelete.AfterDelete | server/api/users.delete.ts:14-21 | the table once every listed id is deleted; `DeleteRemovesExactly` and `DeleteIdempotent` state its properties |
| UsersDelete.DeleteRemovesExactly | server/api/users.delete.ts:14-21 | no remaining row has a named id, every unnamed row remains, and unknown ids do not matter |
| UsersDelete.DeleteIdempotent | server/api/users.delete.ts:14-21 | deleting twice equals deleting once, and repeated or unknown ids change nothing |
| UsersPatch.PatchFields | server/api/users.patch.ts:10-15 | the UPDATE writes the body's fields and `salary ?? 4900`, so a 0 salary is kept |
| UsersPatch.Patched | server/api/users.patch.ts:7-17 | the table after the patch's UPDATE; `PatchTouchesOnlyTarget`, `PatchUnknownId` and `PatchIdempotent` state its properties |
| UsersPatch.PatchUser | server/api/users.patch.ts:3-19 | the table is updated by the body's id and the reply is "sucess" |
| UsersPatch.PatchTouchesOnlyTarget | server/api/users.patch.ts:7-17 | only the row with the body's id changes; length, order and every other row stay |
| UsersPatch.PatchUnknownId | server/api/users.patch.ts:16 | an id no row carries changes nothing |
| UsersPatch.PatchIdempotent | server/api/users.patch.ts:7-17 | sending the same patch twice has the effect of sending it once |
| SheetGet.MaxSheetDate | server/api/sheet.get.ts:7-10 | MAX is NULL exactly on an empty table, otherwise a sheet date that occurs and bounds all others |
| SheetGet.RowsOn | server/api/sheet.get.ts:17-19 | the second query returns exactly the rows with that date; NULL matches none |
| SheetGet.LatestSheet | server/api/sheet.get.ts:3-25 | the handler's result; `LatestSheetIsExact` states that it is exactly the latest sheet |
| SheetGet.LatestSheetIsExact | server/api/sheet.get.ts:3-25 | the result is exactly the rows carrying the largest sheet date; it is empty exactly when the table is |
| SheetPost.IsDraw | server/api/sheet.post.ts:82 | `Math.floor(Math.random() * 12)` yields one of 0..11; `WageOf` states the wage such a draw gives |
| SheetPost.WageOf | server/api/sheet.post.ts:82 | a draw gives a daily wage in 150..260 that is a multiple of 10 |
| SheetPost.DaysTenths | server/api/sheet.post.ts:83 | the attendance days are salary ÷ wage rounded to the nearest tenth, halves away from zero |
| SheetPost.FirstAcceptable | server/api/sheet.post.ts:81-84 | the loop stops at the first draw giving at most 28 days, and every earlier draw gave more |
| SheetPost.Acceptable | server/api/sheet.post.ts:84 | the loop's exit test, at most 28.0 days for the wage of a draw; `FirstAcceptable` and `AcceptableWageExists` state when it holds |
| SheetPost.Decompose | server/api/sheet.post.ts:76-85 | salary 4900 gives 350 and 14 days; any other gives the wage of the first draw whose rounded quotient is at most 28 days, every earlier draw giving more, and that quotient |
| SheetPost.Wages | server/api/sheet.post.ts:72-85 | one wage pair per worker, in request order, each the one `Decompose` describes for that worker's salary and draws |
| SheetPost.DeriveWage | server/api/sheet.post.ts:73-85 | the retry loop returns the pair `Decompose` describes |
| SheetPost.AcceptableWageExists | server/api/sheet.post.ts:81-84 | some wage is acceptable exactly when the salary is at most 7292, so for larger salaries the loop cannot end |
| SheetPost.Sheet | server/api/sheet.post.ts:71-128 | the data rows followed by the total row; `SheetLayout` and `TotalIsColumnSum` state its layout and total |
| SheetPost.DataRowOf | server/api/sheet.post.ts:89-101 | one `addRow` of a data row; `SheetLayout` states its cells |
| SheetPost.DataRows | server/api/sheet.post.ts:72-101 | the data rows in input order; `SheetLayout` states their numbering and cells |
| SheetPost.SumSalaries | server/api/sheet.post.ts:71-87 | the `totalSalary` accumulator over the users in order; `SumColumnPrefix` and `TotalIsColumnSum` state that it sums the column |
| SheetPost.Snapshots | server/api/sheet.post.ts:110-113 | the snapshot rows appended, one per worker; `SnapshotsPerUser` states their contents |
| SheetPost.SnapshotOf | server/api/sheet.post.ts:111-112 | the values of one snapshot INSERT; `SnapshotsPerUser` states its columns |
| SheetPost.UserFields | server/api/sheet.post.ts:106 | the columns the per-worker UPDATE sets; `UpdatesOverwrite` states their effect |
| SheetPost.ApplyUpdates | server/api/sheet.post.ts:104-108 | the user table after the per-worker UPDATEs in order; `UpdatesOverwrite` states which worker each row ends up with |
| SheetPost.SheetLayout | server/api/sheet.post.ts:89-101 | one row per worker, in order, numbered from 1, copying its name, job, address, bankcard, phone and identity, with its own wage pair, its salary as attendance salary and an empty signature, then the total row |
| SheetPost.SumColumnPrefix | server/api/sheet.post.ts:71-87 | after k rows the running total equals the sum of their attendance-salary cells |
| SheetPost.TotalIsColumnSum | server/api/sheet.post.ts:116-128 | the total row holds the sum of the attendance-salary column above it |
| SheetPost.UpdatesOverwrite | server/api/sheet.post.ts:104-108 | each stored row takes the fields of the last request worker with its id, or stays as it was; nothing is added or removed |
| SheetPost.SnapshotsPerUser | server/api/sheet.post.ts:110-113 | one snapshot per worker, in order, under the shared timestamp and period, copying the worker's identity, name, phone, bankcard, address, salary and job, and its wage pair |
| SheetPost.SnapshotIdsAppend | server/api/sheet.post.ts:111-112 | appending a snapshot adds exactly its uuid to the salary keys |
| SheetPost.FreshAfterInsert | server/api/sheet.post.ts:112 | after one snapshot is stored, the uuids still to come are still unused |
| SheetPost.RecordUser | server/api/sheet.post.ts:104-113 | the two statements for one worker update its row and append its snapshot |
| SheetPost.PostSheet | server/api/sheet.post.ts:6-128 | a missing or empty list fails with 400 and writes nothing; otherwise the rows are the sheet, the user table has every update applied and the salary table has every snapshot appended |

## Left out

- The image upload path of `POST /api/users` is not modelled (server/api/users.post.ts:5-72). This covers the prompt, reading the multipart form, the 400 for a missing form, base64 encoding and the chat-completion call. The model starts from the extracted candidates.
- `JSON.parse` of the reply is not modelled. `Fence` models the clean-up before it, and `UsersPost` starts from parsed candidates.
- Values the model cannot produce are parameters:
  - `uuidv4()` becomes the fresh-id lists `freshIds` and `snapshotIds`;
  - `Date.now()` becomes `sheetDate`;
  - `Math.random()` becomes the per-worker draw lists.
- The workbook's appearance is not modelled. This covers the title, the company and period header rows with the `salaryDate` text, the headers, merged cells, fonts, borders, the signature row and the xlsx buffer. Only the data rows and the total row are.
- SheetPost.PostSheet: the callbacks passed to `users.forEach(async ...)` are not awaited. In the source, the UPDATE and INSERT statements can still be running when the response is sent, and they can interleave across workers. The model applies them one worker at a time, in order. It does return the same rows and total, because those are computed before each callback's first `await`.
- SheetPost.DeriveWage: requires draws containing an acceptable one. The source loop never ends for a salary above 7292 (see `AcceptableWageExists`), so that case cannot be returned from.
- SheetPost.DaysTenths: models `toFixed(1)` as exact decimal rounding of the quotient. The binary floating-point ties where `toFixed` rounds the other way are not modelled.
- Database errors are not modelled. The users.post `catch` that swallows them and the delete handler's 500 for a failing statement are left out.
- The "missing ID" and "failed to retrieve new user ID" branches of `POST /api/users` are not modelled. Every stored row has an id and INSERT ... RETURNING always returns it here.
- UsersPost.Decimal: renders every integer in plain digits. JavaScript switches to exponent form from 1e21 ("1e+21"), which the model does not produce.
- Salaries are integers in the model (types/index.ts:14 and server/api/users.post.ts:12 declare `salary` as a JavaScript `number`). Fractional salaries and salaries beyond 2^53, where floating-point numbers stop being exact integers, are not modelled.
- Identity, phone and bankcard are strings in the model, so `.toString()` on them is the identity.
- A `PATCH /api/users` body that lacks a field is not modelled; the model's patch body always carries every string field. In the source a missing identity, phone or bankcard throws a TypeError from `toString` (server/api/users.patch.ts:10, 12, 13). A missing name or address binds NULL and is written without error (lines 11, 14).
- The predicate `Complete` and `IncompleteMessage` use JavaScript truthiness for strings and `||` for the salary. 0 counts as missing, as in the source.
- A sheet-request worker without a salary is not modelled: in the model every worker of a request carries a number. In the source such a worker is written to the `user` table with a NULL salary (server/api/sheet.post.ts:106), since only the list itself is checked (line 9). Its retry loop stops after one draw, because a NaN attendance is not greater than 28 (lines 81-84). A later listing gives it "普工" (server/api/users.get.ts:11), and a later merge falls back to 4900 through the trailing `?? 4900` (server/api/users.post.ts:134, 144, 167, 177). In the model the stored salary is always a number, so that fallback is unreachable.
- A request body other than the ones modelled is not modelled. `PostSheet` takes an optional list, `None` standing for a body without a list. `DeleteUsers` takes an optional id list, `None` standing for an object body whose `ids` is absent or not an array.
- `DELETE /api/users` with a missing or `null` body is not modelled. There the destructuring at server/api/users.delete.ts:3 throws a TypeError inside the `try`, and the 500 carries that error's message rather than the "No user IDs" one.
- The message of the 500 raised by `DELETE /api/users` assumes `createError` copies `statusMessage` into `message`.
- server/utils/constants (the `maxSalary` threshold of users.get) is not part of this model, so the threshold is a parameter.
- server/plugins/database.ts (the table definitions) and nuxt.config.ts are not modelled beyond the two tables' columns and primary keys.
