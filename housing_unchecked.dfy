/**
 The housing ingestion script without error handling (project-5/main.py): its
 `create_table` swallows every exception, its `validate_row` applies the same
 seven exact-class checks as the other housing script, and its `ingest_data`
 inserts and commits the valid rows one by one, logging an invalid row by its
 dataframe index; nothing catches a failing database call.
 */
module HousingUnchecked {
  import opened Wrappers
  import opened PyValues
  import opened MySqlStore
  import opened SqlText
  import opened Housing
  import HousingChecked

  /** The label logged for the invalid row at position `i` is `i` itself. */
  const LabelOffset: nat := 0

  /** `validate_row(row)`: `False` when `False` is among the seven checks; a row
      shorter than seven cells raises `IndexError`. */
  function ValidateRow(row: seq<Value>): (r: RowCheck)
    ensures r == IndexError <==> |row| < |Layout|
    ensures r == Checked(true) <==> WellTyped(row)
  {
    if |row| < |Layout| then IndexError
    else
      var checks := TypeChecks(row);
      if false in checks then Checked(false) else Checked(true)
  }

  /** Both housing validators give the same answer on every row, the short ones
      included. */
  lemma ValidatorsAgree(row: seq<Value>)
    ensures ValidateRow(row) == HousingChecked.ValidateRow(row)
  {
  }

  /** Only the first seven cells are inspected, and a `bool` in an integer
      column is rejected. */
  lemma ExactAndPositional(row: seq<Value>, extra: seq<Value>, col: nat, b: bool)
    requires |row| >= |Layout|
    requires col == 0 || col == 3 || col == 4 || col == 5
    ensures ValidateRow(row + extra) == ValidateRow(row)
    ensures ValidateRow(row[col := BoolV(b)]) == Checked(false)
  {
    HousingChecked.TrailingColumnsIgnored(row, extra);
    HousingChecked.BoolRejectedInIntColumn(row, col, b);
  }

  /** What `create_table` does: the table is created, or any exception at all is
      logged as "table already exists"; `None` is returned either way. */
  datatype CreateOutcome = Created | ExistsLogged

  /** `create_table(connection)` against a catalog of existing tables;
      `injected` is any failure the server reports for CREATE TABLE, which
      may itself be error 1050, raised by `execute` or by `commit` alike. */
  function CreateTable(catalog: set<string>, injected: Option<Failure>): (r: (set<string>, CreateOutcome))
    ensures r.1 == Created <==> injected.None? && HousingTable !in catalog
    ensures r.0 == if r.1 == Created then catalog + {HousingTable} else catalog
  {
    var (after, failure) := CreateInCatalog(catalog, HousingTable, injected);
    (after, if failure.None? then Created else ExistsLogged)
  }

  /** This `create_table` leaves the catalog as the other housing script's
      does and creates the table in the same cases, but never raises: a syntax
      error, for one, is logged as "table already exists". */
  lemma CreateTableSwallowsEverything(catalog: set<string>, injected: Option<Failure>)
    ensures CreateTable(catalog, injected).0 == HousingChecked.CreateTable(catalog, injected).0
    ensures CreateTable(catalog, injected).1 == Created <==>
      HousingChecked.CreateTable(catalog, injected).1 == HousingChecked.Created
    ensures injected == Some(DbError(ErrParse)) ==>
      CreateTable(catalog, injected).1 == ExistsLogged &&
      HousingChecked.CreateTable(catalog, injected).1 == HousingChecked.SyntaxErrorRaised
  {
  }

  /** `ingest_data(conn, df)`: the dataframe's column names are joined once;
      each valid row gets one INSERT and one commit, each invalid row is logged
      by its dataframe index, and the first failing database call or short row
      raises out of the loop. `faults[i]` says which database call raises on
      row `i`. */
  method IngestData(conn: Connection, columns: seq<string>, rows: seq<seq<Value>>, faults: seq<Fault>)
    returns (log: seq<nat>, status: Status)
    requires |faults| == |rows|
    modifies conn
    ensures conn.trace == old(conn.trace) + RunUpTo(columns, rows, faults, LabelOffset, |rows|).trace
    ensures log == RunUpTo(columns, rows, faults, LabelOffset, |rows|).log
    ensures status == RunUpTo(columns, rows, faults, LabelOffset, |rows|).status
  {
    var joined := JoinColumns(columns);
    ghost var before := conn.trace;
    log, status := [], Running;
    var i := 0;
    ghost var run := RunUpTo(columns, rows, faults, LabelOffset, 0);
    while i < |rows| && status.Running?
      invariant 0 <= i <= |rows| && run == RunUpTo(columns, rows, faults, LabelOffset, i)
      invariant conn.trace == before + run.trace
      invariant log == run.log && status == run.status
    {
      var row := rows[i];
      ghost var next := Step(run, columns, i, row, faults[i], LabelOffset);
      var check := ValidateRow(row);
      if check == IndexError {
        status := Stopped(i, RowTooShort);
      } else if check == Checked(true) {
        assert InsertRow(columns, row) == Insert(HousingTable, joined, row);
        var ok := conn.Execute(Insert(HousingTable, joined, row), faults[i] == ExecuteFails);
        if !ok {
          status := Stopped(i, ExecuteError);
        } else {
          ok := conn.Commit(faults[i] == CommitFails);
          if !ok {
            status := Stopped(i, CommitError);
            assert next == run.(trace := run.trace + [Executed(InsertRow(columns, row))], status := status);
            assert conn.trace == before + next.trace;
          } else {
            assert next == run.(trace := run.trace + [Executed(InsertRow(columns, row)), Committed]);
            assert conn.trace == before + next.trace;
          }
        }
      } else {
        log := log + [i + LabelOffset];
      }
      RunUpToNext(columns, rows, faults, LabelOffset, i);
      assert next == RunUpTo(columns, rows, faults, LabelOffset, i + 1);
      i, run := i + 1, next;
      assert run == RunUpTo(columns, rows, faults, LabelOffset, i);
    }
    if status.Stopped? {
      StoppedStays(columns, rows, faults, LabelOffset, i, |rows|);
    }
  }

  /** The two housing loops send the server the same statements and stop at the
      same row for the same reason; they log the same invalid rows, this one by
      dataframe index and the other by spreadsheet line, two further on. */
  lemma {:induction false} LoopsDifferOnlyInLabels(columns: seq<string>, rows: seq<seq<Value>>, faults: seq<Fault>, k: nat)
    requires |faults| == |rows| && k <= |rows|
    ensures var here := RunUpTo(columns, rows, faults, LabelOffset, k);
      var there := RunUpTo(columns, rows, faults, HousingChecked.LabelOffset, k);
      && here.trace == there.trace
      && here.status == there.status
      && |here.log| == |there.log|
      && forall j | 0 <= j < |here.log| :: there.log[j] == here.log[j] + 2
    decreases k
  {
    if k > 0 {
      LoopsDifferOnlyInLabels(columns, rows, faults, k - 1);
    }
  }
}
