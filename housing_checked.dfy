/**
 The housing ingestion script with error handling (project_5/main.py): it
 creates the housing table, telling "already exists" apart from a syntax error
 and from other database errors, validates every spreadsheet row by the exact
 classes of its first seven cells, and inserts and commits the valid rows one
 by one, logging an invalid row by its spreadsheet line number (position + 2).
 */
module HousingChecked {
  import opened Wrappers
  import opened PyValues
  import opened MySqlStore
  import opened SqlText
  import opened Housing

  /** The label logged for the invalid row at position `i`: its line in the
      spreadsheet, below the header line. */
  const LabelOffset: nat := 2

  /** `validate_row(row)`: `False` unless all seven checks hold; a row shorter
      than seven cells raises `IndexError`. */
  function ValidateRow(row: seq<Value>): (r: RowCheck)
    ensures r == IndexError <==> |row| < |Layout|
    ensures r == Checked(true) <==> WellTyped(row)
  {
    if |row| < |Layout| then IndexError
    else
      var checks := TypeChecks(row);
      if !(forall i | 0 <= i < |checks| :: checks[i]) then Checked(false) else Checked(true)
  }

  /** Only the first seven cells are inspected: trailing columns never change
      the result. */
  lemma TrailingColumnsIgnored(row: seq<Value>, extra: seq<Value>)
    requires |row| >= |Layout|
    ensures ValidateRow(row + extra) == ValidateRow(row)
  {
    assert (row + extra)[..|Layout|] == row[..|Layout|];
    assert forall i | 0 <= i < |Layout| :: (row + extra)[i] == row[i];
  }

  /** The check is by exact class: a `bool` in an integer column is rejected,
      although `isinstance` would accept it. */
  lemma BoolRejectedInIntColumn(row: seq<Value>, col: nat, b: bool)
    requires |row| >= |Layout|
    requires col == 0 || col == 3 || col == 4 || col == 5
    ensures ValidateRow(row[col := BoolV(b)]) == Checked(false)
    ensures IsInstance(BoolV(b), Layout[col])
  {
    assert !IsExactly(row[col := BoolV(b)][col], Layout[col]);
  }

  /** A listing with integer id, text location and title, integer room counts
      and a float price is valid; the same listing with its id as text is not. */
  lemma ListingExamples()
    ensures ValidateRow([IntV(1), StrV("Lagos"), StrV("Flat"), IntV(3), IntV(2), IntV(1), FloatV(150000.0)]) == Checked(true)
    ensures ValidateRow([StrV("1"), StrV("Lagos"), StrV("Flat"), IntV(3), IntV(2), IntV(1), FloatV(150000.0)]) == Checked(false)
  {
    assert !WellTyped([StrV("1"), StrV("Lagos"), StrV("Flat"), IntV(3), IntV(2), IntV(1), FloatV(150000.0)]) by {
      assert !IsExactly(StrV("1"), Layout[0]);
    }
  }

  /** What `create_table` does after CREATE TABLE ran or raised. */
  datatype CreateOutcome =
    | Created              // executed and committed
    | ExistsLogged         // error 1050 logged, nothing else done
    | SyntaxErrorRaised    // error 1064 turned into a `SyntaxError`
    | ErrorLogged(errno: int)  // any other database error logged
    | Propagated           // an exception that is not a database error escapes
  {
    /** An exception leaves `create_table`. */
    predicate Escapes()
    {
      SyntaxErrorRaised? || Propagated?
    }
  }

  /** The `except sql.Error` handler of `create_table`: error 1050 is logged
      as "already exists", error 1064 becomes a `SyntaxError`, any other
      database error is logged with its number, and an exception that is not a
      database error is not caught. */
  function HandleCreateFailure(failure: Failure): (o: CreateOutcome)
    ensures o != Created
    ensures o == ExistsLogged <==> failure == DbError(ErrTableExists)
    ensures o == SyntaxErrorRaised <==> failure == DbError(ErrParse)
    ensures o == Propagated <==> failure == OtherError
    ensures o.ErrorLogged? ==> failure == DbError(o.errno)
  {
    match failure
    case DbError(errno) =>
      if errno == ErrTableExists then ExistsLogged
      else if errno == ErrParse then SyntaxErrorRaised
      else ErrorLogged(errno)
    case OtherError => Propagated
  }

  /** `create_table(connection)` against a catalog of existing tables;
      `injected` is any failure the server reports for CREATE TABLE, which
      may itself be error 1050, raised by `execute` or by `commit` alike. */
  function CreateTable(catalog: set<string>, injected: Option<Failure>): (r: (set<string>, CreateOutcome))
    ensures r.1.Escapes() <==> injected == Some(DbError(ErrParse)) || injected == Some(OtherError)
    ensures r.1 == Created <==> injected.None? && HousingTable !in catalog
    ensures r.1 == ExistsLogged <==>
      (injected.None? && HousingTable in catalog) || injected == Some(DbError(ErrTableExists))
    ensures r.1 == SyntaxErrorRaised <==> injected == Some(DbError(ErrParse))
    ensures r.1 == Propagated <==> injected == Some(OtherError)
    ensures r.1.ErrorLogged? <==>
      injected.Some? && injected.value.DbError? &&
      injected.value.errno != ErrTableExists && injected.value.errno != ErrParse
    ensures r.1.ErrorLogged? ==> injected == Some(DbError(r.1.errno))
    ensures r.0 == if r.1 == Created then catalog + {HousingTable} else catalog
  {
    var (after, failure) := CreateInCatalog(catalog, HousingTable, injected);
    (after, if failure.None? then Created else HandleCreateFailure(failure.value))
  }

  /** Creating the table a second time is a no-op that raises nothing. */
  lemma CreateTableTwiceIsNoOp(catalog: set<string>)
    ensures var first := CreateTable(catalog, None);
      && HousingTable in first.0
      && CreateTable(first.0, None) == (first.0, ExistsLogged)
  {
  }

  /** `ingest_data(conn, data)`: the dataframe's column names are joined once;
      each valid row gets one INSERT and one commit, each invalid row is logged
      by its spreadsheet line, and the first database error or short row ends
      the loop. `faults[i]` says which database call raises on row `i`. */
  method IngestData(conn: Connection, columns: seq<string>, rows: seq<seq<Value>>, faults: seq<Fault>)
    returns (log: seq<nat>, status: Status)
    requires |faults| == |rows|
    modifies conn
    ensures conn.trace == old(conn.trace) + RunUpTo(columns, rows, faults, LabelOffset, |rows|).trace
    ensures log == RunUpTo(columns, rows, faults, LabelOffset, |rows|).log
    ensures status == RunUpTo(columns, rows, faults, LabelOffset, |rows|).status
  {
    var joined := JoinColumns(columns);
    ghost var before := conn.trace;
    log, status := [], Running;
    var i := 0;
    ghost var run := RunUpTo(columns, rows, faults, LabelOffset, 0);
    while i < |rows| && status.Running?
      invariant 0 <= i <= |rows| && run == RunUpTo(columns, rows, faults, LabelOffset, i)
      invariant conn.trace == before + run.trace
      invariant log == run.log && status == run.status
    {
      var row := rows[i];
      ghost var next := Step(run, columns, i, row, faults[i], LabelOffset);
      var check := ValidateRow(row);
      if check == IndexError {
        status := Stopped(i, RowTooShort);
      } else if check == Checked(true) {
        assert InsertRow(columns, row) == Insert(HousingTable, joined, row);
        var ok := conn.Execute(Insert(HousingTable, joined, row), faults[i] == ExecuteFails);
        if !ok {
          status := Stopped(i, ExecuteError);
        } else {
          ok := conn.Commit(faults[i] == CommitFails);
          if !ok {
            status := Stopped(i, CommitError);
            assert next == run.(trace := run.trace + [Executed(InsertRow(columns, row))], status := status);
            assert conn.trace == before + next.trace;
          } else {
            assert next == run.(trace := run.trace + [Executed(InsertRow(columns, row)), Committed]);
            assert conn.trace == before + next.trace;
          }
        }
      } else {
        log := log + [i + LabelOffset];
      }
      RunUpToNext(columns, rows, faults, LabelOffset, i);
      assert next == RunUpTo(columns, rows, faults, LabelOffset, i + 1);
      i, run := i + 1, next;
      assert run == RunUpTo(columns, rows, faults, LabelOffset, i);
    }
    if status.Stopped? {
      StoppedStays(columns, rows, faults, LabelOffset, i, |rows|);
    }
  }

  /** How `ingest_data` leaves its caller once the loop has ended with `status`. */
  datatype IngestOutcome =
    | Completed              // every row processed, `None` returned
    | DbErrorLogged(errno: int)  // a database error logged, `None` returned
    | RaisedSyntaxError      // error 1064 turned into a `SyntaxError`
    | RaisedFromHandler      // evaluating the handler's own `except` clause raised
    | RaisedUncaught         // an exception the handler does not catch escapes

  /** The handler as written: the loop assigns the INSERT text to a local `sql`,
      which shadows the connector module, so evaluating `except sql.Error`
      raises (an unbound local, or a string without an `Error` attribute)
      whatever the loop raised. */
  function IngestEndAsWritten(status: Status): (e: IngestOutcome)
    ensures e == Completed <==> status.Running?
    ensures e != Completed ==> e == RaisedFromHandler
  {
    if status.Running? then Completed else RaisedFromHandler
  }

  /** The handler as evidently intended, `failure` being the exception of the
      database call the loop stopped at: error 1064 becomes a `SyntaxError`,
      any other database error is logged, and a row too short to validate or an
      exception that is not a database error escapes. */
  function IngestEnd(status: Status, failure: Failure): (e: IngestOutcome)
    ensures e == Completed <==> status.Running?
    ensures e.DbErrorLogged? <==>
      status.Stopped? && status.cause != RowTooShort && failure.DbError? && failure.errno != ErrParse
    ensures e == RaisedSyntaxError <==>
      status.Stopped? && status.cause != RowTooShort && failure == DbError(ErrParse)
    ensures e.DbErrorLogged? ==> failure == DbError(e.errno)
    ensures e != RaisedFromHandler
  {
    match status
    case Running => Completed
    case Stopped(_, cause) =>
      if cause == RowTooShort then RaisedUncaught
      else match failure
        case DbError(errno) => if errno == ErrParse then RaisedSyntaxError else DbErrorLogged(errno)
        case OtherError => RaisedUncaught
  }

  /** A duplicate key (error 1062) on the first INSERT: the code as written
      raises out of its own handler, where the handler was meant to log the
      error and return. */
  lemma DuplicateKeyEscapesHandler()
    ensures IngestEndAsWritten(Stopped(0, ExecuteError)) == RaisedFromHandler
    ensures IngestEnd(Stopped(0, ExecuteError), DbError(1062)) == DbErrorLogged(1062)
  {
  }

  /** The written and the intended handler agree on every run that completes,
      and on nothing else: every ending the intended handler gives a stopped
      run differs from the written one. */
  lemma HandlersDifferExactlyOnStoppedRuns(status: Status, failure: Failure)
    ensures IngestEndAsWritten(status) == IngestEnd(status, failure) <==> status.Running?
  {
  }
}
