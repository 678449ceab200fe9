/**
 What the two housing ingestion scripts have in common: the seven-column
 layout that a row must match exactly, and the meaning of the per-row loop
 that inserts and commits every valid row of the spreadsheet, logs every
 invalid one, and stops at the first row whose validation or database call
 raises. The scripts differ in the label they log for an invalid row, which
 is the row's position plus `labelOffset`.
 */
module Housing {
  import opened PyValues
  import opened MySqlStore
  import opened SqlText

  /** The classes of id, loc, title, bedroom, bathroom, parking_space and price. */
  const Layout: seq<PyType> := [IntT, StrT, StrT, IntT, IntT, IntT, FloatT]

  /** A row is well typed when it has at least the seven layout cells and each
      of them has exactly the layout's class. */
  predicate WellTyped(row: seq<Value>)
  {
    |row| >= |Layout| && forall i | 0 <= i < |Layout| :: IsExactly(row[i], Layout[i])
  }

  /** The seven checks that both housing validators compute, one per layout
      cell, in order: each says whether the cell has exactly its column's class. */
  function TypeChecks(row: seq<Value>): (checks: seq<bool>)
    requires |row| >= |Layout|
    ensures |checks| == |Layout|
    ensures forall i | 0 <= i < |Layout| :: checks[i] == IsExactly(row[i], Layout[i])
  {
    [ IsExactly(row[0], IntT),    // id
      IsExactly(row[1], StrT),    // loc
      IsExactly(row[2], StrT),    // title
      IsExactly(row[3], IntT),    // bedroom
      IsExactly(row[4], IntT),    // bathroom
      IsExactly(row[5], IntT),    // parking_space
      IsExactly(row[6], FloatT) ] // price
  }

  /** The outcome of `validate_row`: a boolean, or the `IndexError` raised by
      `row.iloc[i]` on a row shorter than seven cells. */
  datatype RowCheck = Checked(valid: bool) | IndexError

  /** Which database call raises on a row, if the row gets that far. */
  datatype Fault = NoFault | ExecuteFails | CommitFails

  /** Why the loop stopped. */
  datatype Cause = RowTooShort | ExecuteError | CommitError

  /** Whether the loop is still going, or stopped at `row`. */
  datatype Status = Running | Stopped(row: nat, cause: Cause)

  /** The effect of the ingestion so far: what the server accepted, and the
      labels logged for invalid rows. */
  datatype Run = Run(trace: seq<Event>, log: seq<nat>, status: Status)

  /** The INSERT for one row: the table, the joined column names, the row's cells. */
  function InsertRow(columns: seq<string>, row: seq<Value>): (stmt: Statement)
  {
    Insert(HousingTable, JoinColumns(columns), row)
  }

  /** One iteration of the loop, for row `row` at position `i`. */
  function Step(run: Run, columns: seq<string>, i: nat, row: seq<Value>, fault: Fault, labelOffset: nat): (next: Run)
  {
    if |row| < |Layout| then run.(status := Stopped(i, RowTooShort))
    else if !WellTyped(row) then run.(log := run.log + [i + labelOffset])
    else match fault
      case NoFault => run.(trace := run.trace + [Executed(InsertRow(columns, row)), Committed])
      case ExecuteFails => run.(status := Stopped(i, ExecuteError))
      case CommitFails =>
        run.(trace := run.trace + [Executed(InsertRow(columns, row))], status := Stopped(i, CommitError))
  }

  /** The loop over the first `k` rows; when it has stopped, it stopped at one
      of them. */
  function RunUpTo(columns: seq<string>, rows: seq<seq<Value>>, faults: seq<Fault>, labelOffset: nat, k: nat): (run: Run)
    requires |faults| == |rows| && k <= |rows|
    ensures run.status.Stopped? ==> run.status.row < k
  {
    if k == 0 then Run([], [], Running)
    else
      var prev := RunUpTo(columns, rows, faults, labelOffset, k - 1);
      if prev.status.Running? then Step(prev, columns, k - 1, rows[k - 1], faults[k - 1], labelOffset)
      else prev
  }

  /** A run still going after `i` rows takes its next step on row `i`. */
  lemma RunUpToNext(columns: seq<string>, rows: seq<seq<Value>>, faults: seq<Fault>, labelOffset: nat, i: nat)
    requires |faults| == |rows| && i < |rows| && RunUpTo(columns, rows, faults, labelOffset, i).status.Running?
    ensures RunUpTo(columns, rows, faults, labelOffset, i + 1) ==
      Step(RunUpTo(columns, rows, faults, labelOffset, i), columns, i, rows[i], faults[i], labelOffset)
  {
  }

  /** Once the loop has stopped, later rows change nothing. */
  lemma {:induction false} StoppedStays(columns: seq<string>, rows: seq<seq<Value>>, faults: seq<Fault>, labelOffset: nat, i: nat, j: nat)
    requires |faults| == |rows| && i <= j <= |rows|
    requires RunUpTo(columns, rows, faults, labelOffset, i).status.Stopped?
    ensures RunUpTo(columns, rows, faults, labelOffset, j) == RunUpTo(columns, rows, faults, labelOffset, i)
    decreases j
  {
    if j > i {
      StoppedStays(columns, rows, faults, labelOffset, i, j - 1);
    }
  }

  /** What the server is sent for rows that all get through: one INSERT of the
      joined column names followed by one commit per well-typed row, in order. */
  function Expected(columns: seq<string>, rows: seq<seq<Value>>): (trace: seq<Event>)
    ensures forall j | 0 <= j < |trace| && trace[j].Executed? ::
      trace[j].stmt.table == HousingTable && trace[j].stmt.columns == JoinColumns(columns) &&
      WellTyped(trace[j].stmt.values)
    ensures |trace| <= 2 * |rows|
    decreases |rows|
  {
    if rows == [] then []
    else (if WellTyped(rows[0]) then [Executed(InsertRow(columns, rows[0])), Committed] else [])
         + Expected(columns, rows[1..])
  }

  /** The well-typed rows, in order. */
  function ValidRows(rows: seq<seq<Value>>): (r: seq<seq<Value>>)
    ensures |r| <= |rows|
    ensures forall j | 0 <= j < |r| :: WellTyped(r[j]) && r[j] in rows
    decreases |rows|
  {
    if rows == [] then []
    else
      var rest := ValidRows(rows[1..]);
      assert forall j | 0 <= j < |rest| :: rest[j] in rows by {
        forall j | 0 <= j < |rest| ensures rest[j] in rows {
          assert rest[j] in rows[1..];
        }
      }
      (if WellTyped(rows[0]) then [rows[0]] else []) + rest
  }

  /** The labels of the rows that are not well typed, when the first row is
      labelled `first` and the others follow it. */
  function RejectedLabels(rows: seq<seq<Value>>, first: nat): (r: seq<nat>)
    ensures forall j | 0 <= j < |r| :: first <= r[j] < first + |rows|
    decreases |rows|
  {
    if rows == [] then []
    else (if !WellTyped(rows[0]) then [first] else []) + RejectedLabels(rows[1..], first + 1)
  }

  /** Every row is either valid or rejected, never both. */
  lemma {:induction false} EveryRowAccountedFor(rows: seq<seq<Value>>, first: nat)
    ensures |ValidRows(rows)| + |RejectedLabels(rows, first)| == |rows|
    decreases |rows|
  {
    if rows != [] {
      EveryRowAccountedFor(rows[1..], first + 1);
    }
  }

  /** Appending a row to the input appends its INSERT and commit to the reference trace iff it is well typed. */
  lemma {:induction false} ExpectedSnoc(columns: seq<string>, rows: seq<seq<Value>>, row: seq<Value>)
    ensures Expected(columns, rows + [row]) ==
      Expected(columns, rows) + (if WellTyped(row) then [Executed(InsertRow(columns, row)), Committed] else [])
    decreases |rows|
  {
    if rows == [] {
      assert rows + [row] == [row];
    } else {
      assert (rows + [row])[1..] == rows[1..] + [row];
      ExpectedSnoc(columns, rows[1..], row);
    }
  }

  /** Appending a row to the input appends its label to the reference log iff it is not well typed. */
  lemma {:induction false} RejectedLabelsSnoc(rows: seq<seq<Value>>, row: seq<Value>, first: nat)
    ensures RejectedLabels(rows + [row], first) ==
      RejectedLabels(rows, first) + (if !WellTyped(row) then [first + |rows|] else [])
    decreases |rows|
  {
    if rows == [] {
      assert rows + [row] == [row];
    } else {
      assert (rows + [row])[1..] == rows[1..] + [row];
      RejectedLabelsSnoc(rows[1..], row, first + 1);
    }
  }

  /** The loop sends exactly the reference INSERT and commit pairs for the rows
      before the one it stopped at (plus that row's INSERT when only its commit
      failed), and logs exactly the labels of the invalid rows among them. */
  lemma {:induction false} RunMatchesReference(columns: seq<string>, rows: seq<seq<Value>>, faults: seq<Fault>, labelOffset: nat, k: nat)
    requires |faults| == |rows| && k <= |rows|
    ensures var run := RunUpTo(columns, rows, faults, labelOffset, k);
      var end := if run.status.Running? then k else run.status.row;
      && run.trace == Expected(columns, rows[..end]) +
           (if run.status == Stopped(end, CommitError) then [Executed(InsertRow(columns, rows[end]))] else [])
      && run.log == RejectedLabels(rows[..end], labelOffset)
    decreases k
  {
    if k > 0 {
      RunMatchesReference(columns, rows, faults, labelOffset, k - 1);
      var prev := RunUpTo(columns, rows, faults, labelOffset, k - 1);
      if prev.status.Running? {
        StepMatchesReference(prev, columns, rows, faults, labelOffset, k);
      }
    }
  }

  /** The step for row `k - 1` of a run that matches the reference on the
      first `k - 1` rows matches it on the first `k`, or on the rows before
      the one it stops at. */
  lemma StepMatchesReference(prev: Run, columns: seq<string>, rows: seq<seq<Value>>, faults: seq<Fault>, labelOffset: nat, k: nat)
    requires |faults| == |rows| && 0 < k <= |rows| && prev.status.Running?
    requires prev.trace == Expected(columns, rows[..k - 1])
    requires prev.log == RejectedLabels(rows[..k - 1], labelOffset)
    ensures var run := Step(prev, columns, k - 1, rows[k - 1], faults[k - 1], labelOffset);
      var end := if run.status.Running? then k else run.status.row;
      && run.trace == Expected(columns, rows[..end]) +
           (if run.status == Stopped(end, CommitError) then [Executed(InsertRow(columns, rows[end]))] else [])
      && run.log == RejectedLabels(rows[..end], labelOffset)
  {
    if Step(prev, columns, k - 1, rows[k - 1], faults[k - 1], labelOffset).status.Running? {
      ReferenceOfLongerPrefix(columns, rows, labelOffset, k);
    }
  }

  /** The reference on the first `k` rows extends the one on the first `k - 1`
      by what row `k - 1` adds. */
  lemma ReferenceOfLongerPrefix(columns: seq<string>, rows: seq<seq<Value>>, first: nat, k: nat)
    requires 0 < k <= |rows|
    ensures Expected(columns, rows[..k]) == Expected(columns, rows[..k - 1]) +
      (if WellTyped(rows[k - 1]) then [Executed(InsertRow(columns, rows[k - 1])), Committed] else [])
    ensures RejectedLabels(rows[..k], first) ==
      RejectedLabels(rows[..k - 1], first) + (if !WellTyped(rows[k - 1]) then [first + k - 1] else [])
  {
    assert rows[..k] == rows[..k - 1] + [rows[k - 1]];
    ExpectedSnoc(columns, rows[..k - 1], rows[k - 1]);
    RejectedLabelsSnoc(rows[..k - 1], rows[k - 1], first);
  }

  /** The loop stops at the first row too short to validate or well-typed row
      whose INSERT or commit raised, and a loop still going has met no such
      row. */
  lemma {:induction false} StopReason(columns: seq<string>, rows: seq<seq<Value>>, faults: seq<Fault>, labelOffset: nat, k: nat)
    requires |faults| == |rows| && k <= |rows|
    ensures var status := RunUpTo(columns, rows, faults, labelOffset, k).status;
      var end := if status.Running? then k else status.row;
      && (forall j | 0 <= j < end :: |rows[j]| >= |Layout| && (WellTyped(rows[j]) ==> faults[j] == NoFault))
      && (status.Stopped? ==>
        && status.row < k
        && match status.cause
            case RowTooShort => |rows[status.row]| < |Layout|
            case ExecuteError => WellTyped(rows[status.row]) && faults[status.row] == ExecuteFails
            case CommitError => WellTyped(rows[status.row]) && faults[status.row] == CommitFails)
    decreases k
  {
    if k > 0 {
      StopReason(columns, rows, faults, labelOffset, k - 1);
      var prev := RunUpTo(columns, rows, faults, labelOffset, k - 1);
      if prev.status.Running? {
        StepKeepsStopReason(prev, columns, rows, faults, labelOffset, k);
      }
    }
  }

  /** The step for row `k - 1` of a run that has met no stopping row among
      the first `k - 1` either meets none among the first `k`, or stops at row
      `k - 1` for the reason that row gives. */
  lemma StepKeepsStopReason(prev: Run, columns: seq<string>, rows: seq<seq<Value>>, faults: seq<Fault>, labelOffset: nat, k: nat)
    requires |faults| == |rows| && 0 < k <= |rows| && prev.status.Running?
    requires forall j | 0 <= j < k - 1 :: |rows[j]| >= |Layout| && (WellTyped(rows[j]) ==> faults[j] == NoFault)
    ensures var status := Step(prev, columns, k - 1, rows[k - 1], faults[k - 1], labelOffset).status;
      var end := if status.Running? then k else status.row;
      && (forall j | 0 <= j < end :: |rows[j]| >= |Layout| && (WellTyped(rows[j]) ==> faults[j] == NoFault))
      && (status.Stopped? ==>
        && status.row < k
        && match status.cause
            case RowTooShort => |rows[status.row]| < |Layout|
            case ExecuteError => WellTyped(rows[status.row]) && faults[status.row] == ExecuteFails
            case CommitError => WellTyped(rows[status.row]) && faults[status.row] == CommitFails)
  {
  }

  /** The reference trace makes durable exactly the well-typed rows, and leaves
      nothing uncommitted. */
  lemma {:induction false} ExpectedMakesValidRowsDurable(columns: seq<string>, rows: seq<seq<Value>>)
    ensures Durable(Expected(columns, rows), []) == ValidRows(rows)
    ensures Pending(Expected(columns, rows), []) == []
    decreases |rows|
  {
    if rows != [] {
      ExpectedMakesValidRowsDurable(columns, rows[1..]);
      var head := if WellTyped(rows[0]) then [Executed(InsertRow(columns, rows[0])), Committed] else [];
      DurableAppend(head, Expected(columns, rows[1..]), []);
      if WellTyped(rows[0]) {
        assert head[1..] == [Committed];
        assert [Committed][1..] == [];
      }
    }
  }

  /** The rows the housing table holds after the loop are the well-typed rows
      before the one it stopped at, in order; together with the log they
      account for every one of those rows. */
  lemma DurableRowsAreValidRows(columns: seq<string>, rows: seq<seq<Value>>, faults: seq<Fault>, labelOffset: nat)
    requires |faults| == |rows|
    ensures var run := RunUpTo(columns, rows, faults, labelOffset, |rows|);
      var end := if run.status.Running? then |rows| else run.status.row;
      && end <= |rows|
      && Durable(run.trace, []) == ValidRows(rows[..end])
      && |Durable(run.trace, [])| + |run.log| == end
  {
    var run := RunUpTo(columns, rows, faults, labelOffset, |rows|);
    RunMatchesReference(columns, rows, faults, labelOffset, |rows|);
    var end := if run.status.Running? then |rows| else run.status.row;
    var tail := if run.status == Stopped(end, CommitError) then [Executed(InsertRow(columns, rows[end]))] else [];
    ExpectedMakesValidRowsDurable(columns, rows[..end]);
    DurableAppend(Expected(columns, rows[..end]), tail, []);
    EveryRowAccountedFor(rows[..end], labelOffset);
  }
}
