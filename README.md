# fjord-cli core, modelled in Dafny

fjord-cli is a terminal client for a learning platform. It lists
unchecked reports and products that are awaiting a response, and the
operator moves a cursor over them. This project models and proves three
parts of it:

- **The table selection cursor** (`Table`, in `stateful_table.dfy`).
  `StatefulTable` holds a fixed list of rows and an optional selected
  index. `Next` and `Previous` move the selection with wrap-around. The
  source computes `len - 1` on an unsigned length, which underflows when
  the list is empty. The model makes that a precondition. It does not
  handle the empty case, because the code does not: from no selection,
  both operations select index 0 even on an empty list.
- **Paginated fetching** (`Pagination`, `Reports`, `Products`, with the
  JSON value shape in `Json`). The remote server is an abstract page
  source: `pages[k]` is the reply to the request for page `k + 1`. A
  reply is a transport failure, an undecodable body, or a decoded JSON
  body. A kind-specific function reads each reply into a step: the
  records of a non-empty page, the end of the list, an error, or a
  panic. A fetch requests pages 1, 2, 3, … and stops at the first page
  whose array is empty. It concatenates the earlier pages' records in
  server order.
  - The report fetcher returns an error for a missing token, a transport
    failure or an undecodable body.
  - A missing array or a missing field panics. The product fetcher
    panics on every failure.
  - A panic is the outcome `Panicked`: the process ends and no list is
    returned.
- **The key loop of the `reports` command** (`Cursor`). `KeyStep` is the
  loop body, `Run` is the loop over a finite key sequence, and `KeyLoop`
  is the imperative loop proved equal to `Run`. The cursor row has the
  source's `u16` type.
A small `Wrappers` module, which is not part of fjord-cli, holds the
`Option` type the model uses.

`Json.Get` models indexing a JSON value by field name: a missing field,
or any value that is not an object, yields `Null`. `Json.AsStr` models
the string accessor. Functions that only compute (field lookup, record
decoding, reading one reply) keep plain bodies, and a lemma next to each
states what it gives. `Pagination.Gathered` concatenates the records of
the given steps, in order; `Pagination.Fetch` applies it to the steps
before the first stop. `Pagination.StopOutcome` gives what the
loop returns at the stopping step. `Pagination.Fetch` gives a whole
fetch's outcome from the steps of every reply.

Two behaviours of the code are easy to misread, and the model keeps both:
- `next`/`previous` are not no-ops on an empty list. From no selection
  they select 0, and a second call underflows `len() - 1`.
- A missing record field panics through `unwrap`. It is not an error
  result.

## Model

| member | source | states |
|---|---|---|
| `Table.NextIndex` | src/util/stateful_table.rs:16-28 | From no selection, `next` picks 0. From `i` it picks `i + 1` while that is below the length, and otherwise wraps to 0, even for an out-of-range `i`. With rows present and an in-range or absent selection, the result is in range. Requires a non-empty list whenever a selection exists, because `len - 1` underflows otherwise. |
| `Table.PreviousIndex` | src/util/stateful_table.rs:30-42 | From no selection, `previous` picks 0, not the last row. From 0 it picks `len - 1`, and from `i > 0` it picks `i - 1`. The result is in range on a non-empty list. Requires a non-empty list only when the selection is 0, the one case that computes `len - 1`. |
| `Table.StatefulTable.constructor` | src/util/stateful_table.rs:10-15 | A new table has no selection, and its rows are exactly the argument. The rows are a `const`, never changed afterwards. |
| `Table.StatefulTable.Next` | src/util/stateful_table.rs:16-28 | The selection becomes `Some(NextIndex(old selection, len))`. With rows present, an in-bounds or absent selection stays in bounds. |
| `Table.StatefulTable.Previous` | src/util/stateful_table.rs:30-42 | The selection becomes `Some(PreviousIndex(old selection, len))`. With rows present, an in-bounds or absent selection stays in bounds. |
| `Table.StatefulTable.Items` | src/util/stateful_table.rs:44-46 | Returns the stored rows unchanged. |
| `Table.NextTimes` | src/util/stateful_table.rs:16-28 | Repeating `next` from an in-range index always stays in range. |
| `Table.PreviousTimes` | src/util/stateful_table.rs:30-42 | Repeating `previous` from an in-range index always stays in range. |
| `Table.NextTimesCompose` | src/util/stateful_table.rs:16-28 | `a` calls of `next` followed by `b` calls equal `a + b` calls. |
| `Table.PreviousTimesCompose` | src/util/stateful_table.rs:30-42 | `a` calls of `previous` followed by `b` calls equal `a + b` calls. |
| `Table.NextTimesAdvances` | src/util/stateful_table.rs:18-24 | `k` calls of `next` from `i` reach `i + k` while that is below the length. The call that passes the last row lands on 0. |
| `Table.PreviousTimesRetreats` | src/util/stateful_table.rs:32-37 | `k <= i` calls of `previous` from `i` reach `i - k`. The next call wraps to the last row. |
| `Table.FullCycleReturns` | src/util/stateful_table.rs:16-42 | Calling `next` (or `previous`) `len` times from a valid index returns to that index. |
| `Table.NextPreviousInverse` | src/util/stateful_table.rs:16-42 | On a valid index, `previous` undoes `next` and `next` undoes `previous`. |
| `Table.EmptyTableReachesUnderflow` | src/util/stateful_table.rs:10-42 | A client builds a table over no rows and calls `next`, and another calls `previous`. Each ends with selection `Some(0)` over zero rows, where the precondition of both operations fails, so a second call would underflow. |
| `Json.GetReads` | src/models/report.rs:27-36 | `v[key]` gives a present field of an object, and `Null` for a missing field or a value that is not an object. |
| `Json.GetAfterSet` | src/models/report.rs:33-36 | Setting a field is seen when indexing that field, and by no other field. |
| `Json.AsStrReads` | src/models/report.rs:33-36 | `as_str` gives a string exactly for a string value, and it is the string that value holds. |
| `Pagination.PageNumbers` | src/models/report.rs:16-39 | The pages a fetch that reads `n` pages requests are 1, 2, …, `n`, in order. |
| `Pagination.FirstStop` | src/models/report.rs:27-30 | Gives an index no larger than the number of steps. When it is a real step, that step is not a non-empty page, so the loop stops there. |
| `Pagination.BeforeFirstStop` | src/models/report.rs:27-30 | Every step before the first stop is a non-empty page. |
| `Pagination.GatherOneMore` | src/models/report.rs:27-39 | A pass over a non-empty page at or before the first stop goes on to the next page, and the list grows by that page's records. |
| `Pagination.FetchStopsAt` | src/models/report.rs:27-30 | A stopping step at or before the first stop is the first stop. The fetch's outcome is read off it: the records gathered so far on an empty page, its error on a failed request, a panic otherwise. |
| `Pagination.Gathered` | src/models/report.rs:17-39 | The records of the given steps, concatenated in order; no steps give the empty list, as the loop starts from an empty vector. Its properties are stated by `GatheredSnoc`, `GatheredCons` and `GatheredPrefix`. |
| `Pagination.GatheredPrefix` | src/models/report.rs:31-39 | The records gathered from any leading run of the pages are a prefix of those gathered from all of them: the loop only appends. |
| `Pagination.StopOutcome` | src/models/report.rs:24-30 | The loop's result at its stopping step: the list exactly on the end-of-list sentinel, an error exactly on a failed request, with that request's error. |
| `Pagination.FetchOutcome` | src/models/report.rs:15-43 | A fetch returns the list exactly when the first stop is the end of the list, and the list is then every record before it. It returns an error exactly when the first stop is a failed request. |
| `Pagination.TwoPagesThenEnd` | src/models/report.rs:15-43 | Two non-empty pages and then an empty one: the fetch stops at the third and returns both pages' records in order. |
| `Pagination.GatheredSnoc` | src/models/report.rs:31-39 | Gathering one more page appends that page's records after the earlier ones. |
| `Pagination.DecodeAll` | src/models/report.rs:31-38 | A page that decodes has exactly one result per record. |
| `Pagination.DecodeAllSpec` | src/models/report.rs:31-38 | A page decodes exactly when every one of its records does. Its results are then the records' decodings, in order. |
| `Pagination.DecodeAllSnoc` | src/models/report.rs:31-38 | Decoding one more record extends the decoded prefix by that record's decoding, or fails when either fails. |
| `Pagination.GatheredCons` | src/models/report.rs:31-38 | Gathering pages is the first page's records followed by the rest's, so order is kept and nothing is dropped or deduplicated. |
| `Pagination.FetchUnfold` | src/models/report.rs:18-41 | A fetch is the first page's records in front of the fetch of the remaining pages. An error or panic later on discards the partial list. |
| `Pagination.FirstStopPrefix` | src/models/report.rs:27-30 | The first stop does not depend on the pages after it. |
| `Pagination.FetchIgnoresLaterPages` | src/models/report.rs:27-30 | Replacing every step after the first stop leaves the fetch's result unchanged. |
| `Reports.ToReportReads` | src/models/report.rs:32-37 | A record gives a report exactly when `title`, `url`, `reportedOn` and `user.login_name` are strings. The report holds those strings. |
| `Reports.Report.Title` | src/models/report.rs:45-47 | The title is the `title` field of the report's record. |
| `Reports.Report.ReportedOn` | src/models/report.rs:49-51 | The date is the `reportedOn` field of the report's record. |
| `Reports.Report.LoginName` | src/models/report.rs:53-55 | The login name is the `user.login_name` field of the report's record. |
| `Reports.ReportAccessorsReadRecord` | src/models/report.rs:45-55 | `Title`, `ReportedOn` and `LoginName` return the fields of the record the report was read from. |
| `Reports.ReportRecordRoundTrip` | src/models/report.rs:32-37 | A report sent as a record is read back unchanged. |
| `Reports.ToReportIgnoresOtherFields` | src/models/report.rs:32-37 | Fields other than the four selected ones do not affect the report. |
| `Reports.SingleReportPage` | src/models/report.rs:27-38 | A page holding one report's record is read as that report alone. |
| `Reports.ReportStepReads` | src/models/report.rs:23-39 | Reading one reply: a transport failure or an undecodable body is exactly an error, of the matching kind. An empty `reports` array is exactly the end of the list. A non-empty page holds every record decoded, in order. Conversely, a non-empty `reports` array whose every record decodes is read as a page of those reports, so the fetch goes on. |
| `Reports.ReportFetchOutcome` | src/models/report.rs:15-43 | Without a token the fetch returns `Err(AuthMissing)` before any request. With one, its result is read off the first reply that stops the loop, holding the records of every reply before it. |
| `Reports.ReportFetchIgnoresLaterReplies` | src/models/report.rs:27-30 | Replacing every reply after the one that stops the loop leaves the report fetch's result unchanged. |
| `Reports.ReadReportPage` | src/models/report.rs:23-39 | Reading one reply gives one of four results. A transport or decode failure is an error. A missing `reports` array or a bad record is a panic. An empty array ends the list. Otherwise the result is the page's reports in order. |
| `Reports.FetchReports` | src/models/report.rs:15-43 | Returns exactly `ReportFetch(token, pages)`. Requests pages 1, 2, 3, … in order, `FirstStop + 1` of them (`PageNumbers`). Pauses after each non-empty page only. With no token, sends no request and returns `Err(AuthMissing)`. |
| `Reports.ReportFetchErrors` | src/models/report.rs:24-26 | The fetch returns an error exactly when the token is missing or the stopping reply is a transport or decode failure. The error kind matches. |
| `Reports.ReportFetchSucceeds` | src/models/report.rs:27-42 | The fetch returns a list exactly when there is a token and the stopping reply's `reports` array is empty. |
| `Reports.TwoPagesThenEmpty` | src/models/report.rs:15-43 | Pages `[a]`, `[b]`, `[]` yield exactly `[a, b]`, and the stop is the third page, so three requests are made. |
| `Products.ToProductReads` | src/models/product.rs:32-40 | A record gives a product exactly when `practice.title`, `url`, `updated_at` and `user.login_name` are strings. The product holds them, and `assigned` is true exactly when `checker_name` is not null. |
| `Products.Product.Title` | src/models/product.rs:47-49 | The title is the `practice.title` field of the product's record. |
| `Products.Product.UpdatedOn` | src/models/product.rs:51-53 | The date is the `updated_at` field of the product's record. |
| `Products.Product.LoginName` | src/models/product.rs:55-57 | The login name is the `user.login_name` field of the product's record. |
| `Products.Product.Assigned` | src/models/product.rs:59-61 | A product is assigned exactly when its record names a checker, whatever the name. |
| `Products.ProductAccessorsReadRecord` | src/models/product.rs:47-61 | `Title`, `UpdatedOn`, `LoginName` and `Assigned` return the fields of the record the product was read from. |
| `Products.ProductRecordRoundTrip` | src/models/product.rs:33-39 | A product sent as a record, with or without a checker, is read back unchanged, `assigned` included. |
| `Products.MissingCheckerIsUnassigned` | src/models/product.rs:38 | A record with no `checker_name` field is unassigned. |
| `Products.ProductStepReads` | src/models/product.rs:23-41 | Reading one reply never gives an error. A failed request or body aborts. An empty `products` array is exactly the end of the list. A non-empty page holds every record decoded, in order. Conversely, a non-empty `products` array whose every record decodes is read as a page of those products, so the fetch goes on. |
| `Products.ProductFetchOutcome` | src/models/product.rs:15-45 | Without a token the fetch panics before any request. With one, its result is read off the first reply that stops the loop, holding the records of every reply before it. |
| `Products.ProductFetchIgnoresLaterReplies` | src/models/product.rs:28-31 | Replacing every reply after the one that stops the loop leaves the product fetch's result unchanged. |
| `Products.ReadProductPage` | src/models/product.rs:23-41 | Reading one reply gives one of three results. Any transport, decode, array or field failure is a panic. An empty array ends the list. Otherwise the result is the page's products in order. |
| `Products.FetchProducts` | src/models/product.rs:15-45 | Returns exactly `ProductFetch(token, pages)`. Requests pages 1, 2, 3, … in order, `FirstStop + 1` of them (`PageNumbers`). Pauses after each non-empty page. A missing token panics before any request. |
| `Products.ProductFetchNeverErrs` | src/models/product.rs:23-31 | The fetch never returns an error: it returns the full list or panics. It returns a list exactly when there is a token and the stopping reply's `products` array is empty. |
| `Cursor.KeyStep` | src/main.rs:59-71 | `q` and Ctrl-c end the loop. `j` adds exactly 1 to the row. `k` subtracts 1 only while the row is greater than 1. Any other key leaves the row unchanged. Requires that `j` does not overflow `u16`. |
| `Cursor.Run` | src/main.rs:46-74 | The cursor starts at (1, 1) and its row stays between 1 and one more than the number of keys. The last placement is the current cursor. There is one placement at the start and one per non-quit key read. |
| `Cursor.RunMovesInColumn` | src/main.rs:46-74 | Every cursor placement the loop writes is in column 1, on row 1 or below. |
| `Cursor.RunExtend` | src/main.rs:58-71 | Offering one more key to a running loop applies the loop body to it: a quit key stops the loop, and any other key moves the cursor and adds one placement. |
| `Cursor.RunStaysStopped` | src/main.rs:60-61 | After a quit key, no later key changes anything. |
| `Cursor.RunStopsAtFirstQuit` | src/main.rs:58-61 | The loop stops exactly when some key is a quit key. It stops at the first one, having read the keys up to it. |
| `Cursor.KeysAfterQuitIgnored` | src/main.rs:60-61 | Keys appended after a quit are never processed. |
| `Cursor.OnlyDownKeys` | src/main.rs:62-64 | `m` presses of `j` put the cursor on row `1 + m`. The row has no upper bound tied to the number of reports. |
| `Cursor.UpUndoesDown` | src/main.rs:62-69 | `k` undoes `j` on any row, and `j` undoes `k` while the row is greater than 1. |
| `Cursor.KeyLoop` | src/main.rs:46-74 | The imperative loop ends in exactly the state `Run` gives: the same row, placement trace and number of keys read. |

## Left out

- HTTP requests, reading the `FJORD_JWT_TOKEN` variable, and JSON decoding are foreign calls. The page source stands in for the server and its replies, and the token is an `Option<string>` parameter.
- The source reads the token once per page request. The model treats it as one value for the whole fetch.
- Only the number of pauses is modelled, not their durations (200 ms and 500 ms).
- `open` (launching the browser on a URL) is a foreign side effect.
- Terminal output is not modelled: alternate screen, raw mode, clearing, hiding and showing the cursor, and drawing the report titles in `write_alt_screen_msg`. Only the cursor placements of the key loop are kept, as a trace.
- Errors while reading keys (`c.unwrap()` in the key loop) are not modelled. The keys are a finite sequence that was already read.
- The command-line bootstrap (`main`, `show_reports_command`) is not modelled.
- src/lib.rs is a hard-coded three-item fixture with no logic and is not part of this model.
- The widget state behind the table is modelled only by its selected index.
- JSON numbers are integers only. No field the fetchers read is a number.
- FetchReports: assumes the page source reaches a stopping page (`FirstStop < |pages|`). A server that never returns an empty page makes the source loop forever, and that case is not modelled.
- FetchProducts: assumes the page source reaches a stopping page, as for FetchReports.
- KeyLoop: requires fewer than 65535 keys. This bound is sufficient but not necessary for `cursor_y` not to overflow `u16`. The overflow itself (a panic or a wrap) is not modelled.
- Run: requires fewer than 65535 keys, for the same reason as KeyLoop.
- A panic ends the process, so records pushed before it are not observable.
