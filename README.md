# Validate-then-ingest scripts of Shadow-Ops, modelled in Dafny

Three ingestion scripts of the Shadow-Ops data-engineering projects share one
shape. Each reads a table of rows, validates each row's cells by their Python
classes, writes the rows that pass to a database one by one, and logs the rows
that do not. This project models the core of the three scripts and proves what
their loops persist, log and raise.

- **Artwork ingestion** (`project-6/project_6/main.py`), module `Artwork`:
  - `type_check` walks a record's fields in column order. It looks up each
    column in a fixed 27-column schema and tests the value with `isinstance`.
  - `ingest_data` adds every record that passes to an ORM session and commits
    it. An `IntegrityError` at commit rolls back that record and the loop goes on.
  - Two exceptions are not caught and end the run: a `KeyError` from a column
    unknown to the schema, and any other database error at commit. The latter
    leaves its record pending in the session.
  - The session is a class whose fields (`committed`, `pending`) the methods
    `Add`, `Commit` and `Rollback` update.
- **Housing ingestion with error handling** (`project_5/main.py`), module
  `HousingChecked`:
  - `create_table` tells "table exists" (error 1050) apart from a syntax error
    (1064) and from other errors.
  - `validate_row` requires exact classes (`type(x) == T`) on the first seven
    cells.
  - `ingest_data` inserts and commits each valid row. It logs an invalid row by
    its spreadsheet line (position + 2).
- **Housing ingestion without error handling** (`project-5/main.py`), module
  `HousingUnchecked`:
  - `create_table` swallows every exception.
  - `validate_row` is the same check, written with `False in`.
  - `ingest_data` logs an invalid row by its dataframe index.

Shared modules:

- `PyValues`: the Python classes involved and the subclass relation (`bool` is
  an `int`, `pandas.Timestamp` is a `datetime`).
- `SqlText`: the `", ".join` of the column names and its inverse.
- `MySqlStore`: a `Connection` class. Its `trace` records what the server
  accepted. `Durable` derives from a trace the rows that commits made durable.
- `Housing`: the meaning of the housing loop shared by both scripts. It is a
  function `RunUpTo` over the first `k` rows, parameterised by the offset added
  to a logged row's position. Next to it are front-recursive reference
  definitions (`Expected`, `ValidRows`, `RejectedLabels`) that the loop is
  proved against.

Which database call fails is not computed from the data. It is an input:
- in the artwork script, `faults[i]` says whether record `i`'s commit
  succeeds, hits an integrity violation or raises another database error;
- in the housing scripts, `faults[i]` says whether row `i`'s INSERT or commit
  raises.

Each `IngestData` method is proved equal to `RunUpTo` over all rows. The
lemmas about `RunUpTo` then say:
- which records or rows are persisted;
- which are logged;
- why a run ends early.

Behaviours of the scripts worth knowing, all captured by the model:
- `type_check` uses `isinstance`, so a `bool` passes where an `int` is expected
  and a `pandas.Timestamp` where a `datetime` is expected. The housing
  validators compare exact classes and reject both.
- `type_check` checks only the columns a record has, so a record missing
  schema columns passes.
- `type_check` raises `KeyError` on a column the schema does not know, rather
  than returning `False`.
- Neither housing loop rolls back one row and goes on: `project_5`'s handler
  cannot catch anything (see Findings), and `project-5` has no handler.
- Only `project_5`'s `create_table` tells an existing table apart from other
  errors. `project-5` reports every failure as "table already exists".

## Model

| member | source | states |
|---|---|---|
| PyValues.ExactVersusInstance | project-6/project_6/main.py:137 | An exact-class test implies `isinstance`. They differ exactly on a `bool` where `int` is expected and a `Timestamp` where `datetime` is expected. |
| PyValues.SubclassIsPartialOrder | project-6/project_6/main.py:137 | The subclass relation that `isinstance` follows is reflexive, antisymmetric and transitive. |
| SqlText.JoinColumns | project_5/main.py:122 | No names give the empty text; otherwise the text starts with the first name, followed by `", "` when more names follow. |
| SqlText.SplitJoin | project_5/main.py:122 | Round trip: when there is at least one name and no name contains a comma, splitting the `", "`-joined column list at `", "` gives back the names in order. |
| MySqlStore.Connection.Execute | project_5/main.py:130 | `cursor.execute` either raises and leaves the trace as it was, or appends exactly the executed statement. |
| MySqlStore.Connection.Commit | project_5/main.py:131 | `conn.commit` either raises and leaves the trace as it was, or appends exactly one commit. |
| MySqlStore.CreateInCatalog | project_5/main.py:58-62 | CREATE TABLE succeeds iff no failure is injected and the table is absent. It fails with error 1050 when the table exists, and with the injected failure when there is one. The catalog gains the table on success and is unchanged otherwise. |
| Artwork.TypeCheckBlamesFirstBadField | project-6/project_6/main.py:89-140 | A record passes iff every field's column is in the schema and its value is an instance of that column's class. Otherwise the result blames the first bad field: a `KeyError` if its column is unknown, `False` if its class is wrong. |
| Artwork.DroppingFieldKeepsPass | project-6/project_6/main.py:136-140 | Only the columns present are checked. Removing any field from a passing record keeps it passing. |
| Artwork.EmptyRecordPasses | project-6/project_6/main.py:136-140 | A record with no fields passes, although every schema column is missing. |
| Artwork.SubclassValuesPass | project-6/project_6/main.py:105-137 | A `pandas.Timestamp` passes as `DateAcquired` and a `bool` passes as `ConstituentID`. |
| Artwork.FirstBadFieldDecides | project-6/project_6/main.py:136-139 | Field order decides the outcome. A wrong class before an unknown column gives `False`; the reverse order gives `KeyError`. |
| Artwork.SampleRecordPasses | project-6/tests/test_main.py:13-46 | The sample 27-column artwork record passes the check. |
| Artwork.Session.Add | project-6/project_6/main.py:169 | `session.add` appends the record to the pending records and leaves the committed ones unchanged. |
| Artwork.Session.Commit | project-6/project_6/main.py:170 | `session.commit` succeeds iff the database raises nothing, and then moves all pending records to the committed ones. When it raises an integrity violation or another database error, it changes nothing. |
| Artwork.Session.Rollback | project-6/project_6/main.py:175 | `session.rollback` discards the pending records and keeps the committed ones. |
| Artwork.Step | project-6/project_6/main.py:161-175 | One iteration either leaves the committed records as they were or appends exactly its record, which then passed the check and committed without error. It either leaves the log as it was or appends one note, naming its own position. It commits or logs at most one record, and can end the run only at its own position. |
| Artwork.StepKeepsCommits | project-6/project_6/main.py:161-175 | An iteration on a run that has committed exactly what the records before it persist does the same for one more record, or stops at its record and changes nothing. |
| Artwork.StepKeepsLog | project-6/project_6/main.py:161-175 | An iteration on a run whose log matches the reference for the records before it keeps it matching for one more record, or stops at its record. |
| Artwork.StepKeepsStopReason | project-6/project_6/main.py:161-175 | An iteration on a run that has met no stopping record goes on, or stops at its own record for the reason that record gives (an unknown column, or a database error other than an integrity violation). |
| Artwork.RunUpTo | project-6/project_6/main.py:159-175 | The run over the first `k` records commits or logs at most one record per record seen, and ends, if at all, at a record seen. |
| Artwork.IngestData | project-6/project_6/main.py:159-175 | The loop commits, logs and stops exactly as `RunUpTo` over all records says. It leaves nothing pending, except the record whose commit raised a non-integrity database error. |
| Artwork.Persisted | project-6/project_6/main.py:159-175 | The records an uninterrupted run persists. There are no more of them than there are input records, and each one passes the check and is an input record. |
| Artwork.NoteFor | project-6/project_6/main.py:171-175 | A record is logged at most once. |
| Artwork.Notes | project-6/project_6/main.py:159-175 | The reference log of an uninterrupted run has at most one note per record. |
| Artwork.StepLogsNoteFor | project-6/project_6/main.py:161-175 | One loop iteration logs exactly the reference note of its record, and no note when it ends the run. |
| Artwork.RunLogsRejectedRecords | project-6/project_6/main.py:159-175 | The log names exactly the records before the run's end that fail the check (with their first bad column) or whose commit hit an integrity violation, in input order. |
| Artwork.RunCommitsAcceptedRecords | project-6/project_6/main.py:159-175 | The committed records are exactly those before the run's end that pass and whose commit succeeds, in input order. Committed plus logged records number exactly the records before the end. |
| Artwork.StopReason | project-6/project_6/main.py:159-175 | A run ends at the first record whose check raises `KeyError` (on that record's unknown column) or whose commit raises a database error other than an integrity violation. A run still going has met no such record. |
| Artwork.IntegrityViolationContinues | project-6/project_6/main.py:173-175 | An integrity violation on a passing record is logged, leaves the committed records unchanged and does not stop the run. |
| Housing.TypeChecks | project_5/main.py:100-108 | The seven checks, in order, each say whether its cell has exactly the layout's class. |
| Housing.RunUpTo | project_5/main.py:127-133 | The loop over the first `k` rows, shared by both housing scripts. When it has stopped, it stopped at one of those rows. |
| Housing.Expected | project_5/main.py:127-131 | The reference trace. Every statement in it inserts into `housing_dataset` with the joined column names and a well-typed row. It has at most two events per row. |
| Housing.ValidRows | project_5/main.py:127-131 | The reference persisted rows. There are no more of them than there are input rows, and each one is well typed and is an input row. |
| Housing.RejectedLabels | project_5/main.py:132-133 | The reference log. Every label lies within the range of labels of the rows given. |
| Housing.EveryRowAccountedFor | project_5/main.py:127-133 | Valid rows plus rejected labels number exactly the rows. |
| Housing.RunMatchesReference | project_5/main.py:127-133 | Before the row it stopped at, the loop sends the server exactly the reference INSERT-and-commit pairs. When only the commit failed, that row's INSERT follows. The loop logs exactly the reference labels. |
| Housing.StepMatchesReference | project_5/main.py:127-133 | One iteration on a run that matches the reference trace and log for the rows before it keeps them matching for one more row, or stops at its row (with that row's INSERT in the trace when only the commit failed). |
| Housing.StepKeepsStopReason | project_5/main.py:127-133 | One iteration on a run that has met no stopping row goes on, or stops at its own row: a short row, or a well-typed row whose INSERT or commit raised. |
| Housing.StopReason | project_5/main.py:127-131 | The loop stops at the first row that is shorter than seven cells, or that is well typed and whose INSERT or commit raised. A loop still going has met no such row. |
| Housing.ExpectedMakesValidRowsDurable | project_5/main.py:127-131 | The reference trace makes exactly the well-typed rows durable, in order, and leaves nothing uncommitted. |
| Housing.DurableRowsAreValidRows | project_5/main.py:127-133 | After the loop, the table gains exactly the well-typed rows before the row it stopped at, in order. Durable rows plus logged rows number exactly the rows before the stop. |
| HousingChecked.ValidateRow | project_5/main.py:94-113 | A short row raises `IndexError`. Otherwise the result is `True` iff the first seven cells have exactly the layout's classes. |
| HousingChecked.TrailingColumnsIgnored | project_5/main.py:100-106 | Cells after the seventh never change the result. |
| HousingChecked.BoolRejectedInIntColumn | project_5/main.py:100-106 | A `bool` in an integer column is rejected, although `isinstance` would accept it. |
| HousingChecked.ListingExamples | project_5/main.py:94-113 | A typical listing is valid. The same listing with its id as text is not. |
| HousingChecked.HandleCreateFailure | project_5/main.py:64-73 | Error 1050 is logged as "already exists". Error 1064 becomes `SyntaxError`. Any other database error is logged with its own number. An exception that is not a database error escapes. |
| HousingChecked.CreateTable | project_5/main.py:58-73 | The following hold: (1) The table is created iff no failure is injected and it is absent. (2) Error 1050, or the table already existing, is logged and nothing else happens. (3) `SyntaxError` is raised iff error 1064. (4) A non-database exception escapes iff one is injected. (5) Any other database error is logged with its own number. (6) The catalog changes only by the new table. |
| HousingChecked.CreateTableTwiceIsNoOp | project_5/main.py:58-73 | Creating the table a second time changes nothing and raises nothing. |
| HousingChecked.IngestData | project_5/main.py:116-141 | The loop sends the server, logs and stops exactly as `RunUpTo` with line labels (position + 2) says. |
| HousingChecked.IngestEndAsWritten | project_5/main.py:124-141 | As written, `ingest_data` completes iff its loop ran through. Any exception in the loop ends in an exception raised by the `except` clause itself. |
| HousingChecked.IngestEnd | project_5/main.py:124-141 | As intended: a completed loop returns; error 1064 raises `SyntaxError`; other database errors are logged with their own number; a short row or a non-database exception escapes. |
| HousingChecked.DuplicateKeyEscapesHandler | project_5/main.py:124-141 | A duplicate key on the first INSERT makes the written handler raise, whereas the intended one logs error 1062. |
| HousingChecked.HandlersDifferExactlyOnStoppedRuns | project_5/main.py:124-141 | The written and the intended handler agree exactly on the runs that complete. |
| HousingUnchecked.ValidateRow | project-5/main.py:73-89 | A short row raises `IndexError`. Otherwise the result is `True` iff `False` is not among the seven exact-class checks. |
| HousingUnchecked.ValidatorsAgree | project-5/main.py:73-89 | This validator and the other housing script's give the same result on every row. |
| HousingUnchecked.ExactAndPositional | project-5/main.py:76-86 | Cells after the seventh are ignored, and a `bool` in an integer column is rejected. |
| HousingUnchecked.CreateTable | project-5/main.py:46-55 | The table is created iff no failure is injected and it is absent. Otherwise the outcome is logged as "already exists" and the catalog is unchanged. |
| HousingUnchecked.CreateTableSwallowsEverything | project-5/main.py:46-55 | Leaves the same catalog, and creates in the same cases, as the other script's `create_table`. A syntax error, which the other raises, is logged as "already exists". |
| HousingUnchecked.IngestData | project-5/main.py:92-107 | The loop sends the server, logs and stops exactly as `RunUpTo` with index labels (position + 0) says. |
| HousingUnchecked.LoopsDifferOnlyInLabels | project-5/main.py:100-106 | Both housing loops send the same statements and stop at the same row for the same reason. Each logged label of this loop is the other's minus 2. |

## Left out

- Loading the data is not modelled: the parquet file, the Google Sheets API and building the dataframe. A dataframe is a sequence of rows. Its index is taken to be the row position (the default range index).
- Database connections and `query_db.py` are not modelled. The server is the `Connection` trace and a catalog of table names.
- The `ArtWork` ORM class, its `__repr__` and the `setattr` loop that copies a record into it are not modelled. The session stores the record itself.
- The rendering of a row into SQL text with `tuple(v)` is not modelled. An INSERT carries the row's cells.
- Logging text and `__main__` blocks are not modelled. A log is the sequence of rejected rows.
- numpy scalar classes, `None`/`NaN` cells and floating point are not modelled. A float cell is a `real` and a date is an opaque text.
- Failures of the server are inputs, not computed from the data. `faults[i]` says which call on row or record `i` raises. `injected` says only that creating the table raises, not whether `execute` or `commit` raised.
- MySqlStore.CreateInCatalog: an injected failure is taken to happen before the table is created. MySQL commits CREATE TABLE implicitly, so a `conn.commit()` that raises after a successful `execute` would leave the table in place. The model does not capture that case.
- Artwork.IngestData: requires the session to have nothing pending at the start. The script's module-level session is fresh when the script runs.
- HousingChecked.IngestData: a stopped status stands for any exception leaving `ingest_data`. It does not say which exception is raised. IngestEndAsWritten and IngestEnd describe which exception that is.
- Artwork.SampleRecordPasses: the sample record's `Dimensions` and `ThumbnailURL` texts are shortened. Any text passes as `str`.

## Findings

| source | as written | input that shows it | evidently intended | confidence | as-written member | corrected member |
|---|---|---|---|---|---|---|
| project_5/main.py:129-141 | The loop assigns the INSERT text to a local `sql`, shadowing the `mysql.connector` module imported as `sql`. Evaluating `except sql.Error` then raises `AttributeError`, or `UnboundLocalError` before the first INSERT. So no database error is logged or turned into `SyntaxError`. | A first row that is well typed and whose INSERT fails with a duplicate key (error 1062). | Error 1064 raises `SyntaxError`; any other database error is logged and `ingest_data` returns. | high, not executed | HousingChecked.IngestEndAsWritten | HousingChecked.IngestEnd |
