# Universal Document Reader — a Dafny model of its request handlers

The service takes uploaded documents and runs one background task per file. Each task extracts
the file's text, asks a language model for structured fields, finds the JSON object in the
answer, parses and flattens it, and inserts one row into a `documents` table. Rows are grouped
by upload batch (`request_id`). The HTTP handlers list the batches, list the rows of one batch,
read or update one row by its integer key, and delete rows.

This project models those handlers over an abstract table. The table is a map from a
store-assigned integer key to a row of seven columns. Columns that can be NULL are `Option`s.
The collaborators whose code is not part of this model are parameters: text extraction, the
language-model call, the regular-expression search for the JSON object, `json.loads`,
`flatten_json`, `compute_diff`, failure of the insert, `uuid4`, `datetime.now`, and the file
extension of a name.

Modules, by file:

- `common.dfy` (`Common`): `Option`, a JSON value type, `{}`.
- `decimal.dfy` (`Decimal`): Python's `str(int)`, used for `file_{id}`, the upload message and
  the status code in an exception's text.
- `errors.dfy` (`Errors`): exceptions, endpoint results, and the handlers' `except Exception`
  re-wrapping.
- `timestamp.dfy` (`Timestamp`): the storage form `%Y-%m-%d %H:%M:%S`, the display form
  `%d-%m-%Y %H:%M:%S`, and the `strptime`/`strftime` conversion between them.
- `documents.dfy` (`Documents`): the row type, the rows the two insert paths write, and the
  update of one row.
- `queries.dfy` (`Queries`): GET /requests/, GET /requests/{request_id} and GET /file/{file_id}.
  Each is a pure function of the rows the query returns.
- `ingestion.dfy` (`Ingestion`): the background pipeline as a pure function of the task and the
  collaborators.
- `store.dfy` (`Store`): the table as a class. It holds the row map, the key order of a full scan
  and the auto-increment counter. Its methods are the insert, PUT /file/{file_id}, the
  background task, running the scheduled tasks in order, and DELETE /delete/.
- `upload.dfy` (`Upload`): POST /upload/, a loop that schedules the tasks and builds the reply.

Two points where the code itself says more than it does. The model follows what the code does
in both:

- A lookup that finds nothing raises `HTTPException(status_code=404, ...)` inside the handler's
  `try` (main.py:136, main.py:171). That `raise` evidently means to answer 404, but the generic
  `except Exception` catches it and answers 500, whose detail is `"404: ..."`. See Findings.
- The summary's `file_count` counts stored rows. A file whose ingestion failed is not counted,
  although the upload reply announced it in its message and `file_info` (main.py:56-58). See
  `Upload.BatchHoldsIngestedFilesOnly`.

## Model

| member | source | states |
|---|---|---|
| `Errors.CatchAll` | main.py:151-152 | Every exception raised in a handler's `try` becomes status 500 with `str(e)` as detail; a returned value passes through unchanged. |
| `Errors.NotFoundBecomesServerError` | main.py:135-152 | A 404 HTTPException raised inside the `try` reaches the caller as 500 with detail `"404: " + detail`. |
| `Timestamp.StorageRoundTrip` | main.py:29 | Parsing the storage text that `strftime("%Y-%m-%d %H:%M:%S")` writes gives the same datetime back. |
| `Timestamp.StorageCanonical` | main.py:52 | A zero-padded text that `strptime` accepts is exactly the storage text of the datetime it yields. |
| `Timestamp.DisplayRoundTrip` | main.py:52 | The display text `%d-%m-%Y %H:%M:%S` of a datetime parses back to that datetime. |
| `Timestamp.UploadTimeDisplays` | main.py:29-52 | The conversion of the upload time never raises and yields the display text of the same instant. |
| `Timestamp.ToDisplayRearranges` | main.py:111 | The conversion is a fixed-width rearrangement: day, month and year swap places and the time of day is kept. |
| `Timestamp.ToDisplay` | main.py:52 | The `strptime`/`strftime` conversion of a stored time, None where `strptime` raises. It is specified by `ToDisplayRearranges` and `ToDisplayReversible`. |
| `Timestamp.ToDisplayReversible` | main.py:147 | The conversion loses nothing: the display text parses back to the stored instant, and no two storage texts show alike. |
| `Documents.IngestedRow` | main.py:79 | The ingested row holds the file's name, the flattened data, batch id, file id and upload time, with count 0 and an empty diff. |
| `Documents.PlaceholderRow` | main.py:205-208 | The row a PUT on a missing id inserts: named `file_...`, holding the new data, count 0 and an empty diff, with batch id, file id and upload time NULL. `PlaceholderNameIdentifiesId` shows that the name identifies the id. |
| `Documents.PlaceholderNameIdentifiesId` | main.py:205-208 | The requested id survives only in the name `file_{id}`, and different ids give different names, negative ids included. |
| `Documents.PlaceholderNameReadsBack` | main.py:208 | After `file_` the name holds the requested id in decimal, preceded by `-` for a negative id, and those digits read back as the id. |
| `Documents.UpdatedRow` | main.py:193-202 | An update adds 1 to the count, replaces the data, stores this change's diff, and leaves the other columns as they were. |
| `Documents.UpdatesKeepIdentity` | main.py:192-216 | Over any series of N PUTs on an existing row, some of whose diffs may raise, the count rises by at most N and never falls, and name, batch id, file id and upload time stay as they were. |
| `Documents.UpdatesCountAndLastDiff` | main.py:192-202 | When every diff of the series returns, after N updates the count is up by N, the data is the last value written, and the diff describes only the last transition. |
| `Queries.Distinct` | main.py:100 | GROUP BY names each distinct request id exactly once, NULL included. |
| `Queries.InBatch` | main.py:96-100 | One GROUP BY group, or the rows of `WHERE request_id = ...`; it has at most as many rows as the table. Its members are given by `InBatchMembers`. |
| `Queries.InBatchMembers` | main.py:126-130 | A batch holds exactly the rows whose `request_id` equals it; for a lookup, SQL equality never matches NULL. |
| `Queries.Earliest` | main.py:97 | MIN(upload_date_time): a non-NULL result is one of the batch's values. `EarliestIsMinimum` shows that it is the least. |
| `Queries.EarliestIsMinimum` | main.py:97 | MIN(upload_date_time) is NULL exactly when every value is NULL; otherwise it is one of the values and no value is below it. |
| `Queries.TotalUpdates` | main.py:98 | SUM(COALESCE(update_count, 0)): 0 when every count is NULL, and never negative when no count is. |
| `Queries.ShowTime` | main.py:147 | The response conversion returns the display text exactly when the text parses, and raises the `strptime` ValueError otherwise. |
| `Queries.BatchEntry` | main.py:107-113 | One summary entry: its batch id and its group's row count, and it raises, with a ValueError, exactly when the group's earliest time is non-NULL, non-empty and unreadable. |
| `Queries.BatchEntries` | main.py:107-114 | The summary comprehension gives one entry per group, in order; it raises exactly when some group's entry raises. |
| `Queries.BatchEntryDescribes` | main.py:107-113 | An entry has its group's row count (never 0), its update total with NULL as 0, and its earliest time shown or None. |
| `Queries.RequestsSummary` | main.py:89-117 | GET /requests/: one entry per distinct request id, and any failure is a 500. It is specified by `SummaryDescribesBatches` and `SummaryFailsOnUnreadableTime`. |
| `Queries.SummaryDescribesBatches` | main.py:95-113 | One entry per distinct request id, each batch once, each describing its group; the file counts add up to the table's rows. |
| `Queries.BatchesPartition` | main.py:96-100 | Groups that cover every row's request id, each named once, partition the rows. |
| `Queries.SummaryFailsOnUnreadableTime` | main.py:111-117 | The summary fails exactly when some batch's earliest non-empty time cannot be read, and then with status 500. |
| `Queries.ViewOf` | main.py:139-148 | A listed row succeeds exactly when its upload time (`"None"` for NULL) can be converted, and otherwise raises a ValueError. |
| `Queries.ViewShowsRecord` | main.py:139-148 | A converted row shows its key and columns as stored, a NULL diff as `{}`, and its upload time in display form. |
| `Queries.Views` | main.py:138-149 | The listing succeeds exactly when every row converts, and then has one view per row, in order. |
| `Queries.FilesByRequestId` | main.py:120-152 | GET /requests/{request_id}: a successful answer has one entry per row of the batch, and any failure is a 500. It is specified by `FilesByRequestIdListsBatch`. |
| `Queries.FilesByRequestIdListsBatch` | main.py:126-152 | Exactly the batch's rows, in order, with their columns; an empty batch answers 500 with detail `404: No files found for this request_id`; every error is 500. |
| `Queries.SummaryCountMatchesListing` | main.py:95-149 | For a non-NULL batch, the summary's file count equals the length of that batch's listing. |
| `Queries.FileById` | main.py:160-182 | GET /file/{file_id}: it succeeds exactly when the key has a row, and any failure is a 500. It is specified by `FileByIdShowsRow`. |
| `Queries.FileByIdShowsRow` | main.py:165-182 | A present key yields that row's columns with a NULL diff as None; a missing key yields 500 with detail `404: File not found`. |
| `Ingestion.Ingest` | main.py:63-83 | One row is inserted iff extraction yields non-empty text, the model answers, an object is located, it parses and flattens, and the insert does not raise; otherwise the file is dropped and nothing is raised. |
| `Ingestion.PersistedAtMostOnePerTask` | main.py:63-83 | Tasks run in order insert at most one row each, all in their batch, and one per task exactly when none fails. |
| `Store.DocumentTable.Insert` | main.py:205-208 | An insert stores the row under the next auto-increment key, changes no existing row, and the scan sees the row last. |
| `Store.DocumentTable.UpdateFileJson` | main.py:184-216 | Existing row: a raising diff answers 500 with `str(e)` and changes nothing; otherwise count +1, data replaced, diff stored, reply with the diff, nothing else changed. NULL count: 500 with the TypeError text, nothing changed. Missing row: one new `file_{id}` row under a store-assigned key, reply with `{}`. |
| `Store.DocumentTable.ProcessFileBackground` | main.py:63-83 | Inserts the pipeline's row under the next key when every step succeeds; on any failure, a failing insert included, the table is unchanged. The reported outcome is the pipeline's. |
| `Store.DocumentTable.RunBackgroundTasks` | main.py:38-46 | Running an upload's scheduled tasks keeps every existing row and appends exactly the rows of the tasks that succeeded, in task order. |
| `Store.DocumentTable.DeleteFiles` | main.py:155-158 | Rows under the listed keys are removed, absent keys are ignored, other rows stay, and the success message is returned. |
| `Store.DeletionKeepsKeys` | main.py:155-158 | Deleting by key keeps the table's keys ascending, below the counter and each with its row, and the scan afterwards is the old scan without the records under the deleted keys. |
| `Upload.UploadFiles` | main.py:26-59 | One task and one `file_info` entry per file, in input order, all with one request id and one upload time; the message counts the files. |
| `Upload.BatchHoldsIngestedFilesOnly` | main.py:26-83 | After an upload's tasks run, its batch holds one row per ingested file; that count matches the announced number only when no file was dropped. |

## Findings

| source | as written | input that shows it | evidently intended | confidence | as-written member | corrected member |
|---|---|---|---|---|---|---|
| main.py:135-152 | The 404 raised inside the `try` is caught by `except Exception` and re-raised as 500 with detail `404: No files found for this request_id` | GET /requests/x when no row has `request_id` x | Answer 404 with detail `No files found for this request_id` | high; not executed | `Queries.FilesByRequestIdListsBatch` | `Queries.FilesByRequestIdIntendedAnswers404` |
| main.py:170-182 | The 404 raised inside the `try` is caught by `except Exception` and re-raised as 500 with detail `404: File not found` | GET /file/7 when no row has key 7 | Answer 404 with detail `File not found` | high; not executed | `Queries.FileByIdShowsRow` | `Queries.FileByIdIntendedAnswers404` |

The corrected handler is `Errors.CatchOthers`. It lets an HTTPException through with its own
status and turns only other exceptions into 500. Both corrected lookups use it, and both agree
with the as-written lookups whenever a row is found.

## Left out

- HTTP routing, request binding and validation (a non-object PUT body is refused by the framework), and `JSONResponse`: framework plumbing.
- Database connections, cursors and commits. A failing connection in the read handlers or in PUT would answer 500 and change nothing; that path is not modelled. Only the ingestion insert's failure is a parameter.
- `extract_text`, `analyze_with_llm`, `flatten_json`, `compute_diff` and `insert_into_mysql` are not part of this model. They are parameters, and what they compute is not invented. Each may raise, and `compute_diff` raising is one of PUT's failure paths. The body of `insert_into_mysql` is not shown, so the model assumes that it writes the columns it is given, with count 0 and `{}` as the diff.
- GET /files/ (`get_uploaded_files`) only returns `fetch_uploaded_files()`, which is not part of this model.
- The regular expression of main.py:70 and the `strip()` after it are one abstract locator that returns the object text or None.
- `json.loads`/`json.dumps` of the stored columns: rows hold parsed values. JSON numbers are integers. A stored empty-string diff, which `if diff_data` would treat as missing, cannot occur.
- `uuid4`, `datetime.now`, `await file.read()` and `os.path.splitext(...)[1].lower()` are given values: the file ids, the clock reading, the bytes and an extension function.
- Concurrency. Background tasks run one after another in scheduling order, after the reply. Racing PUTs on one row are not modelled.
- `print` logging. Only the text of the caught exception is kept, in `Ingestion.Outcome.Dropped`.
- Timestamps outside the zero-padded 19-character form count as unreadable, although `strptime` accepts some of them (for example, single-digit fields). All read failures carry the "does not match format" wording; Python words calendar-invalid dates differently, and `repr` escaping of odd text is not modelled. Years below 1000 are shown with four digits, while some platforms' `strftime` omits the padding.
- SQL result order. Groups are listed in order of first appearance and rows in key order, although the queries leave the order unspecified. MIN compares text character by character; for zero-padded timestamps this is chronological order. Collations are not modelled.
- Auto-increment gaps. A failed insert leaves the counter unchanged; MySQL can skip a value then.
- `Errors.ExceptionText`: the text `"404: " + detail` for an HTTPException is what `HTTPException.__str__` returns in recent Starlette releases. Older releases define no `__str__`, so the detail's text depends on the version; the status 500 does not.
- `Store.DocumentTable.DeleteFiles`: the ids in the delete request are taken to be primary keys. The request model and `delete_files_by_ids` are not part of this model, and the deletion is taken never to fail. main.py:155-158 has no `try`; if `delete_files_by_ids` raised, the framework would answer its generic 500 and the success message would not be sent. That path is not modelled.
