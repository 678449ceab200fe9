/**
 The artwork ingestion script: every record of the artwork dataframe is type
 checked against a fixed schema with `isinstance`, and a record that passes is
 added to the ORM session and committed. An integrity violation at commit rolls
 back that record only, and the run goes on with the next one.
 */
module Artwork {
  import opened PyValues

  /** One entry of a record: a column name and its cell. */
  datatype Field = Field(key: string, value: Value)

  /** A record as `row.to_dict()` gives it: its fields in column order. */
  type Record = seq<Field>

  /** The expected class of every artwork column. */
  const Schema: map<string, PyType> := map[
    "ConstituentID" := IntT,
    "DisplayName" := StrT,
    "Nationality" := StrT,
    "Gender" := StrT,
    "BeginDate" := IntT,
    "EndDate" := IntT,
    "Wiki QID" := StrT,
    "ULAN" := FloatT,
    "Title" := StrT,
    "Medium" := StrT,
    "Dimensions" := StrT,
    "CreditLine" := StrT,
    "AccessionNumber" := StrT,
    "Classification" := StrT,
    "Department" := StrT,
    "DateAcquired" := DateTimeT,
    "Cataloged" := StrT,
    "ObjectID" := FloatT,
    "URL" := StrT,
    "ThumbnailURL" := StrT,
    "Height (cm)" := FloatT,
    "Width (cm)" := FloatT,
    "completedDate" := FloatT,
    "DateAcquired_year" := IntT,
    "DateAcquired_month" := IntT,
    "DateAcquired_day" := IntT,
    "DateAcquired_weekday" := IntT
  ]

  /** The outcome of checking a record: it passes, it fails on the first field
      whose value is not an instance of its schema class (logged, `False`), or
      it meets a column the schema does not know (a `KeyError` escapes). */
  datatype Check = Pass | Mismatch(key: string, value: Value) | UnknownKey(key: string)

  /** A field the check lets through. */
  predicate FieldOk(f: Field)
  {
    f.key in Schema && IsInstance(f.value, Schema[f.key])
  }

  /** `i` is the first field of `row` that the check does not let through. */
  predicate FirstBad(row: Record, i: int)
  {
    0 <= i < |row| && !FieldOk(row[i]) && forall j | 0 <= j < i :: FieldOk(row[j])
  }

  /** What the check reports when it stops at field `f`. */
  function Blame(f: Field): (r: Check)
    ensures r != Pass
  {
    if f.key in Schema then Mismatch(f.key, f.value) else UnknownKey(f.key)
  }

  /** `type_check(row)`: walks the fields in order and stops at the first one
      that is missing from the schema or whose value is not an instance of its
      schema class. */
  function TypeCheck(row: Record): (r: Check)
    decreases |row|
  {
    if row == [] then Pass
    else if !FieldOk(row[0]) then Blame(row[0])
    else TypeCheck(row[1..])
  }

  /** A record passes iff every field's column is in the schema and its value
      is an instance of that column's class; otherwise the check blames the
      first field that is not. */
  lemma {:induction false} TypeCheckBlamesFirstBadField(row: Record)
    ensures TypeCheck(row) == Pass <==> forall i | 0 <= i < |row| :: FieldOk(row[i])
    ensures TypeCheck(row) != Pass ==> exists i :: FirstBad(row, i) && TypeCheck(row) == Blame(row[i])
    decreases |row|
  {
    if row != [] {
      if !FieldOk(row[0]) {
        assert FirstBad(row, 0);
      } else {
        TypeCheckBlamesFirstBadField(row[1..]);
        assert forall i | 1 <= i < |row| :: row[i] == row[1..][i - 1];
        var r := TypeCheck(row[1..]);
        if r != Pass {
          var k :| FirstBad(row[1..], k) && r == Blame(row[1..][k]);
          assert FirstBad(row, k + 1);
        }
      }
    }
  }

  /** Only the columns present are checked: leaving a field out of a record that
      passes never makes it fail, whichever schema columns are then missing. */
  lemma DroppingFieldKeepsPass(row: Record, i: nat)
    requires i < |row|
    requires TypeCheck(row) == Pass
    ensures TypeCheck(row[..i] + row[i + 1..]) == Pass
  {
    var shorter := row[..i] + row[i + 1..];
    TypeCheckBlamesFirstBadField(row);
    TypeCheckBlamesFirstBadField(shorter);
    forall j | 0 <= j < |shorter|
      ensures FieldOk(shorter[j])
    {
      if j < i {
        assert shorter[j] == row[j];
      } else {
        assert shorter[j] == row[j + 1];
      }
    }
  }

  /** The empty record passes, although it has none of the schema's columns. */
  lemma EmptyRecordPasses()
    ensures TypeCheck([]) == Pass
  {
  }

  /** Subclass values pass: a `pandas.Timestamp` is a `datetime` and a `bool` is
      an `int`. */
  lemma SubclassValuesPass(stamp: string, flag: bool)
    ensures TypeCheck([Field("DateAcquired", TimestampV(stamp))]) == Pass
    ensures TypeCheck([Field("ConstituentID", BoolV(flag))]) == Pass
  {
    assert FieldOk(Field("DateAcquired", TimestampV(stamp)));
    assert FieldOk(Field("ConstituentID", BoolV(flag)));
  }

  /** The check stops at the first bad field, so the column order decides
      between a `False` result and a `KeyError`. */
  lemma FirstBadFieldDecides()
    ensures TypeCheck([Field("Title", IntV(1)), Field("Owner", StrV("x"))]) == Mismatch("Title", IntV(1))
    ensures TypeCheck([Field("Owner", StrV("x")), Field("Title", IntV(1))]) == UnknownKey("Owner")
  {
    assert !FieldOk(Field("Title", IntV(1)));
    assert !FieldOk(Field("Owner", StrV("x")));
  }

  /** The sample artwork record passes, its acquisition date being a
      `pandas.Timestamp`. */
  lemma SampleRecordPasses()
    ensures TypeCheck(SampleRecord()) == Pass
  {
    var row := SampleRecord();
    TypeCheckBlamesFirstBadField(row);
    forall i | 0 <= i < |row|
      ensures FieldOk(row[i])
    {
      if i < 7 {
        SampleArtistFieldOk(i);
      } else if i < 11 {
        SampleWorkFieldOk(i);
      } else if i < 15 {
        SampleHoldingFieldOk(i);
      } else {
        SampleAcquisitionFieldOk(i);
      }
    }
  }

  /** The artist columns of the sample record pass. */
  lemma SampleArtistFieldOk(i: nat)
    requires i < 7
    ensures FieldOk(SampleRecord()[i])
  {
  }

  /** The title, medium and size columns of the sample record pass. */
  lemma SampleWorkFieldOk(i: nat)
    requires 7 <= i < 11
    ensures FieldOk(SampleRecord()[i])
  {
  }

  /** The credit, accession and department columns of the sample record pass. */
  lemma SampleHoldingFieldOk(i: nat)
    requires 11 <= i < 15
    ensures FieldOk(SampleRecord()[i])
  {
  }

  /** The acquisition and catalogue columns of the sample record pass. */
  lemma SampleAcquisitionFieldOk(i: nat)
    requires 15 <= i < 27
    ensures FieldOk(SampleRecord()[i])
  {
  }

  /** A complete artwork record, with a value of the expected class in every
      column. */
  function SampleRecord(): (r: Record)
  {
    [
      Field("ConstituentID", IntV(135298)),
      Field("DisplayName", StrV("William Theophilius Brown")),
      Field("Nationality", StrV("American")),
      Field("Gender", StrV("Male")),
      Field("BeginDate", IntV(1919)),
      Field("EndDate", IntV(2012)),
      Field("Wiki QID", StrV("Unknown")),
      Field("ULAN", FloatV(0.0)),
      Field("Title", StrV("The Room")),
      Field("Medium", StrV("Lithograph")),
      Field("Dimensions", StrV("composition (irreg.)")),
      Field("CreditLine", StrV("Gift of Kleiner, Bell & Co.")),
      Field("AccessionNumber", StrV("707.1967")),
      Field("Classification", StrV("Print")),
      Field("Department", StrV("Drawings & Prints")),
      Field("DateAcquired", TimestampV("1967-12-13 00:00:00")),
      Field("Cataloged", StrV("Y")),
      Field("ObjectID", FloatV(73335.0)),
      Field("URL", StrV("http://www.moma.org/collection/works/73335")),
      Field("ThumbnailURL", StrV("http://www.moma.org/media/thumbnail.jpg")),
      Field("Height (cm)", FloatV(21.6)),
      Field("Width (cm)", FloatV(27.2)),
      Field("completedDate", FloatV(1960.0)),
      Field("DateAcquired_year", IntV(1967)),
      Field("DateAcquired_month", IntV(12)),
      Field("DateAcquired_day", IntV(13)),
      Field("DateAcquired_weekday", IntV(2))
    ]
  }

  /** How `session.commit()` ends for one record: it succeeds, the database
      reports an integrity violation (`IntegrityError`), or it raises another
      database error. */
  datatype CommitFault = NoFault | IntegrityError | DatabaseError

  /** The ORM session: the records committed to the artwork table, and those
      added since the last commit or rollback. */
  class Session {
    var committed: seq<Record>
    var pending: seq<Record>

    constructor ()
      ensures committed == [] && pending == []
    {
      committed, pending := [], [];
    }

    /** `session.add(line)` */
    method Add(row: Record)
      modifies this
      ensures pending == old(pending) + [row]
      ensures committed == old(committed)
    {
      pending := pending + [row];
    }

    /** `session.commit()`; `fault` says whether and how the database refuses
        it, in which case nothing is written. */
    method Commit(fault: CommitFault) returns (ok: bool)
      modifies this
      ensures ok == (fault == NoFault)
      ensures ok ==> committed == old(committed) + old(pending) && pending == []
      ensures !ok ==> committed == old(committed) && pending == old(pending)
    {
      ok := fault == NoFault;
      if ok {
        committed, pending := committed + pending, [];
      }
    }

    /** `session.rollback()` */
    method Rollback()
      modifies this
      ensures committed == old(committed)
      ensures pending == []
    {
      pending := [];
    }
  }

  /** A log line of the ingestion: record `row` was rejected at column `key`,
      or its commit hit an integrity violation and was rolled back. */
  datatype Note = Rejected(row: nat, key: string) | IntegrityFailed(row: nat)

  /** Whether the run is still going, or which exception ended it at `row`: a
      `KeyError` from the check, or a database error other than an integrity
      violation from the commit. */
  datatype Status = Running | KeyErrorAt(row: nat, key: string) | CommitErrorAt(row: nat)

  /** The effect of the ingestion so far. */
  datatype Run = Run(committed: seq<Record>, notes: seq<Note>, status: Status)

  /** One iteration of the ingestion loop, for record `row` at position `i`:
      it commits that record if it passes and commits cleanly, or logs one note
      about position `i`, or ends the run at `i`. */
  function Step(run: Run, i: nat, row: Record, fault: CommitFault): (next: Run)
    ensures next.committed == run.committed ||
      (next.committed == run.committed + [row] && TypeCheck(row) == Pass && fault == NoFault)
    ensures next.notes == run.notes ||
      (|next.notes| == |run.notes| + 1 && next.notes[..|run.notes|] == run.notes && next.notes[|run.notes|].row == i)
    ensures |next.committed| + |next.notes| <= |run.committed| + |run.notes| + 1
    ensures next.status != run.status ==> !next.status.Running? && next.status.row == i
  {
    match TypeCheck(row)
    case Pass =>
      (match fault
       case NoFault => run.(committed := run.committed + [row])
       case IntegrityError => run.(notes := run.notes + [IntegrityFailed(i)])
       case DatabaseError => run.(status := CommitErrorAt(i)))
    case Mismatch(key, _) => run.(notes := run.notes + [Rejected(i, key)])
    case UnknownKey(key) => run.(status := KeyErrorAt(i, key))
  }

  /** The ingestion of the first `k` records; `faults[i]` says how the commit
      of record `i` ends. At most one record is committed or logged per
      record seen, and a run ends at a record seen. */
  function RunUpTo(rows: seq<Record>, faults: seq<CommitFault>, k: nat): (run: Run)
    requires |faults| == |rows| && k <= |rows|
    ensures run.status.Running? || run.status.row < k
    ensures |run.committed| + |run.notes| <= k
  {
    if k == 0 then Run([], [], Running)
    else
      var prev := RunUpTo(rows, faults, k - 1);
      if prev.status.Running? then Step(prev, k - 1, rows[k - 1], faults[k - 1]) else prev
  }

  /** `ingest_data(data)`: type checks every record in order; a record that
      passes is added and committed, and an integrity violation rolls back that
      record and goes on with the next. A `KeyError`, or another database error
      at commit, ends the run, the latter leaving its record pending. */
  method IngestData(session: Session, rows: seq<Record>, faults: seq<CommitFault>)
    returns (notes: seq<Note>, status: Status)
    requires |faults| == |rows|
    requires session.pending == []
    modifies session
    ensures session.committed == old(session.committed) + RunUpTo(rows, faults, |rows|).committed
    ensures notes == RunUpTo(rows, faults, |rows|).notes
    ensures status == RunUpTo(rows, faults, |rows|).status
    ensures session.pending == if status.CommitErrorAt? then [rows[status.row]] else []
  {
    notes, status := [], Running;
    var i := 0;
    ghost var run := RunUpTo(rows, faults, 0);
    while i < |rows| && status.Running?
      invariant 0 <= i <= |rows| && run == RunUpTo(rows, faults, i)
      invariant session.committed == old(session.committed) + run.committed
      invariant notes == run.notes && status == run.status
      invariant session.pending == if status.CommitErrorAt? then [rows[status.row]] else []
    {
      var row := rows[i];
      match TypeCheck(row) {
        case Pass =>
          session.Add(row);
          var ok := session.Commit(faults[i]);
          if !ok {
            if faults[i] == IntegrityError {
              session.Rollback();
              notes := notes + [IntegrityFailed(i)];
            } else {
              status := CommitErrorAt(i);
            }
          } else {
            assert session.committed == old(session.committed) + (run.committed + [row]);
          }
        case Mismatch(key, _) =>
          notes := notes + [Rejected(i, key)];
        case UnknownKey(key) =>
          status := KeyErrorAt(i, key);
      }
      i, run := i + 1, Step(run, i, row, faults[i]);
      assert run == RunUpTo(rows, faults, i);
    }
    if !status.Running? {
      StoppedStays(rows, faults, i, |rows|);
    }
  }

  /** Once an exception has ended the run, later records change nothing. */
  lemma {:induction false} StoppedStays(rows: seq<Record>, faults: seq<CommitFault>, i: nat, j: nat)
    requires |faults| == |rows| && i <= j <= |rows|
    requires !RunUpTo(rows, faults, i).status.Running?
    ensures RunUpTo(rows, faults, j) == RunUpTo(rows, faults, i)
    decreases j
  {
    if j > i {
      StoppedStays(rows, faults, i, j - 1);
    }
  }

  /** The records an uninterrupted run commits: those that pass the check and
      whose commit succeeds, in input order. */
  function Persisted(rows: seq<Record>, faults: seq<CommitFault>): (r: seq<Record>)
    requires |faults| == |rows|
    ensures |r| <= |rows|
    ensures forall j | 0 <= j < |r| :: TypeCheck(r[j]) == Pass
    ensures forall j | 0 <= j < |r| :: r[j] in rows
    decreases |rows|
  {
    if rows == [] then []
    else
      var rest := Persisted(rows[1..], faults[1..]);
      assert forall j | 0 <= j < |rest| :: rest[j] in rows by {
        forall j | 0 <= j < |rest| ensures rest[j] in rows {
          assert rest[j] in rows[1..];
        }
      }
      if TypeCheck(rows[0]) == Pass && faults[0] == NoFault then [rows[0]] + rest else rest
  }

  /** Appending a record to the input appends it to what is persisted iff it passes and commits cleanly. */
  lemma {:induction false} PersistedSnoc(rows: seq<Record>, faults: seq<CommitFault>, row: Record, fault: CommitFault)
    requires |faults| == |rows|
    ensures Persisted(rows + [row], faults + [fault]) ==
      Persisted(rows, faults) + (if TypeCheck(row) == Pass && fault == NoFault then [row] else [])
    decreases |rows|
  {
    if rows == [] {
      assert rows + [row] == [row];
      assert faults + [fault] == [fault];
    } else {
      assert rows + [row] == [rows[0]] + (rows[1..] + [row]);
      assert faults + [fault] == [faults[0]] + (faults[1..] + [fault]);
      PersistedSnoc(rows[1..], faults[1..], row, fault);
    }
  }

  /** The note logged for the record at position `i` of an uninterrupted run,
      given its `check` and how its commit ends: its first mismatching column,
      or its integrity violation. */
  function NoteFor(check: Check, fault: CommitFault, i: nat): (r: seq<Note>)
    ensures |r| <= 1
  {
    if check.Mismatch? then [Rejected(i, check.key)]
    else if check == Pass && fault == IntegrityError then [IntegrityFailed(i)]
    else []
  }

  /** A step logs exactly the note the reference gives its record, and none
      when it ends the run. */
  lemma StepLogsNoteFor(run: Run, i: nat, row: Record, fault: CommitFault)
    ensures Step(run, i, row, fault).notes == run.notes + NoteFor(TypeCheck(row), fault, i)
    ensures Step(run, i, row, fault).status != run.status ==> NoteFor(TypeCheck(row), fault, i) == []
  {
  }

  /** The log of an uninterrupted run whose first record is at position `first`:
      a note per record that fails the check or whose commit conflicts, in
      input order. */
  function Notes(rows: seq<Record>, faults: seq<CommitFault>, first: nat): (r: seq<Note>)
    requires |faults| == |rows|
    ensures |r| <= |rows|
    decreases |rows|
  {
    if rows == [] then []
    else NoteFor(TypeCheck(rows[0]), faults[0], first) + Notes(rows[1..], faults[1..], first + 1)
  }

  /** Appending a record to the input appends its own note, if any, to the reference log. */
  lemma {:induction false} NotesSnoc(rows: seq<Record>, faults: seq<CommitFault>, row: Record, fault: CommitFault, first: nat)
    requires |faults| == |rows|
    ensures Notes(rows + [row], faults + [fault], first) ==
      Notes(rows, faults, first) + NoteFor(TypeCheck(row), fault, first + |rows|)
    decreases |rows|
  {
    if rows == [] {
      assert rows + [row] == [row];
      assert faults + [fault] == [fault];
    } else {
      assert rows + [row] == [rows[0]] + (rows[1..] + [row]);
      assert faults + [fault] == [faults[0]] + (faults[1..] + [fault]);
      NotesSnoc(rows[1..], faults[1..], row, fault, first + 1);
    }
  }

  /** What the first `k` records persist extends what the first `k - 1`
      persist by record `k - 1`, if that one is saved. */
  lemma PersistedOfLongerPrefix(rows: seq<Record>, faults: seq<CommitFault>, k: nat)
    requires |faults| == |rows| && 0 < k <= |rows|
    ensures Persisted(rows[..k], faults[..k]) == Persisted(rows[..k - 1], faults[..k - 1]) +
      (if TypeCheck(rows[k - 1]) == Pass && faults[k - 1] == NoFault then [rows[k - 1]] else [])
  {
    assert rows[..k] == rows[..k - 1] + [rows[k - 1]];
    assert faults[..k] == faults[..k - 1] + [faults[k - 1]];
    PersistedSnoc(rows[..k - 1], faults[..k - 1], rows[k - 1], faults[k - 1]);
  }

  /** The records committed are exactly the records before the end of the run
      that pass the check and whose commit succeeds, in input order, and every
      one of those records is either committed or logged. */
  lemma {:induction false} RunCommitsAcceptedRecords(rows: seq<Record>, faults: seq<CommitFault>, k: nat)
    requires |faults| == |rows| && k <= |rows|
    ensures var run := RunUpTo(rows, faults, k);
      var end := if run.status.Running? then k else run.status.row;
      && run.committed == Persisted(rows[..end], faults[..end])
      && |run.committed| + |run.notes| == end
    decreases k
  {
    if k > 0 {
      RunCommitsAcceptedRecords(rows, faults, k - 1);
      var prev := RunUpTo(rows, faults, k - 1);
      if prev.status.Running? {
        StepKeepsCommits(prev, rows, faults, k);
      }
    }
  }

  /** The step for record `k - 1` of a run that has persisted what the first
      `k - 1` records persist, and seen each of them, does the same for the
      first `k`, or stops and changes nothing. */
  lemma StepKeepsCommits(prev: Run, rows: seq<Record>, faults: seq<CommitFault>, k: nat)
    requires |faults| == |rows| && 0 < k <= |rows|
    requires prev.status.Running? && prev.committed == Persisted(rows[..k - 1], faults[..k - 1])
    requires |prev.committed| + |prev.notes| == k - 1
    ensures var run := Step(prev, k - 1, rows[k - 1], faults[k - 1]);
      var end := if run.status.Running? then k else run.status.row;
      && run.committed == Persisted(rows[..end], faults[..end])
      && |run.committed| + |run.notes| == end
  {
    if Step(prev, k - 1, rows[k - 1], faults[k - 1]).status.Running? {
      PersistedOfLongerPrefix(rows, faults, k);
    }
  }

  /** The log of the first `k` records extends the log of the first `k - 1`
      by the note for record `k - 1`. */
  lemma NotesOfLongerPrefix(rows: seq<Record>, faults: seq<CommitFault>, k: nat)
    requires |faults| == |rows| && 0 < k <= |rows|
    ensures Notes(rows[..k], faults[..k], 0) ==
      Notes(rows[..k - 1], faults[..k - 1], 0) + NoteFor(TypeCheck(rows[k - 1]), faults[k - 1], k - 1)
  {
    assert rows[..k] == rows[..k - 1] + [rows[k - 1]];
    assert faults[..k] == faults[..k - 1] + [faults[k - 1]];
    NotesSnoc(rows[..k - 1], faults[..k - 1], rows[k - 1], faults[k - 1], 0);
  }

  /** The log names exactly the records before the end of the run that fail
      the check, with their first mismatching column, and those whose commit
      hit an integrity violation, in input order. */
  lemma {:induction false} RunLogsRejectedRecords(rows: seq<Record>, faults: seq<CommitFault>, k: nat)
    requires |faults| == |rows| && k <= |rows|
    ensures var run := RunUpTo(rows, faults, k);
      var end := if run.status.Running? then k else run.status.row;
      run.notes == Notes(rows[..end], faults[..end], 0)
    decreases k
  {
    if k > 0 {
      RunLogsRejectedRecords(rows, faults, k - 1);
      var prev := RunUpTo(rows, faults, k - 1);
      if prev.status.Running? {
        StepKeepsLog(prev, rows, faults, k);
      }
    }
  }

  /** The step for record `k - 1` of a run that has logged the notes of the
      first `k - 1` records logs those of the first `k`, or stops and keeps them. */
  lemma StepKeepsLog(prev: Run, rows: seq<Record>, faults: seq<CommitFault>, k: nat)
    requires |faults| == |rows| && 0 < k <= |rows|
    requires prev.status.Running? && prev.notes == Notes(rows[..k - 1], faults[..k - 1], 0)
    ensures var run := Step(prev, k - 1, rows[k - 1], faults[k - 1]);
      var end := if run.status.Running? then k else run.status.row;
      run.notes == Notes(rows[..end], faults[..end], 0)
  {
    StepLogsNoteFor(prev, k - 1, rows[k - 1], faults[k - 1]);
    if Step(prev, k - 1, rows[k - 1], faults[k - 1]).status.Running? {
      NotesOfLongerPrefix(rows, faults, k);
    }
  }

  /** The run ends at the first record whose check raises `KeyError` or whose
      commit raises a database error other than an integrity violation, and a
      run still going has met no such record. */
  lemma {:induction false} StopReason(rows: seq<Record>, faults: seq<CommitFault>, k: nat)
    requires |faults| == |rows| && k <= |rows|
    ensures var status := RunUpTo(rows, faults, k).status;
      var end := if status.Running? then k else status.row;
      && (forall j | 0 <= j < end ::
            !TypeCheck(rows[j]).UnknownKey? && (TypeCheck(rows[j]) == Pass ==> faults[j] != DatabaseError))
      && (status.KeyErrorAt? ==> TypeCheck(rows[status.row]) == UnknownKey(status.key))
      && (status.CommitErrorAt? ==> TypeCheck(rows[status.row]) == Pass && faults[status.row] == DatabaseError)
    decreases k
  {
    if k > 0 {
      StopReason(rows, faults, k - 1);
      var prev := RunUpTo(rows, faults, k - 1);
      if prev.status.Running? {
        StepKeepsStopReason(prev, rows, faults, k);
      }
    }
  }

  /** The step for record `k - 1` of a run that has met no stopping record
      among the first `k - 1` either meets none among the first `k`, or
      stops at record `k - 1` for the reason that record gives. */
  lemma StepKeepsStopReason(prev: Run, rows: seq<Record>, faults: seq<CommitFault>, k: nat)
    requires |faults| == |rows| && 0 < k <= |rows| && prev.status.Running?
    requires forall j | 0 <= j < k - 1 ::
      !TypeCheck(rows[j]).UnknownKey? && (TypeCheck(rows[j]) == Pass ==> faults[j] != DatabaseError)
    ensures var status := Step(prev, k - 1, rows[k - 1], faults[k - 1]).status;
      var end := if status.Running? then k else status.row;
      && (forall j | 0 <= j < end ::
            !TypeCheck(rows[j]).UnknownKey? && (TypeCheck(rows[j]) == Pass ==> faults[j] != DatabaseError))
      && (status.KeyErrorAt? ==> TypeCheck(rows[status.row]) == UnknownKey(status.key))
      && (status.CommitErrorAt? ==> TypeCheck(rows[status.row]) == Pass && faults[status.row] == DatabaseError)
  {
  }

  /** A passing record whose commit hits an integrity violation is logged,
      commits nothing and leaves the run going. */
  lemma IntegrityViolationContinues(rows: seq<Record>, faults: seq<CommitFault>, i: nat)
    requires |faults| == |rows| && i < |rows|
    requires RunUpTo(rows, faults, i).status.Running?
    requires TypeCheck(rows[i]) == Pass && faults[i] == IntegrityError
    ensures RunUpTo(rows, faults, i + 1).status.Running?
    ensures RunUpTo(rows, faults, i + 1).committed == RunUpTo(rows, faults, i).committed
    ensures RunUpTo(rows, faults, i + 1).notes == RunUpTo(rows, faults, i).notes + [IntegrityFailed(i)]
  {
  }
}
