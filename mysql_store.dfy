/**
 The MySQL server as the housing scripts use it: a connection that executes
 statements and commits them, recorded as the trace of what the server
 accepted, and the catalog that CREATE TABLE consults. Whether a call fails is
 not derived from the data: the caller says so.
 */
module MySqlStore {
  import opened Wrappers
  import opened PyValues

  /** The table both housing scripts create and fill. */
  const HousingTable: string := "housing_dataset"

  /** MySQL error ER_TABLE_EXISTS_ERROR. */
  const ErrTableExists: int := 1050

  /** MySQL error ER_PARSE_ERROR. */
  const ErrParse: int := 1064

  /** `INSERT INTO table (columns) VALUES values` */
  datatype Statement = Insert(table: string, columns: string, values: seq<Value>)

  /** What the server accepted, in order. */
  datatype Event = Executed(stmt: Statement) | Committed

  /** An exception raised by a call on the connection: a `mysql.connector.Error`
      with its error number, or any other exception. */
  datatype Failure = DbError(errno: int) | OtherError

  /** A connection whose cursor executes statements and whose `commit` ends the
      transaction. */
  class Connection {
    var trace: seq<Event>

    constructor ()
      ensures trace == []
    {
      trace := [];
    }

    /** `cursor.execute(stmt)`; `fails` says whether the server raises. */
    method Execute(stmt: Statement, fails: bool) returns (ok: bool)
      modifies this
      ensures ok == !fails
      ensures trace == if ok then old(trace) + [Executed(stmt)] else old(trace)
    {
      ok := !fails;
      if ok {
        trace := trace + [Executed(stmt)];
      }
    }

    /** `conn.commit()`; `fails` says whether the server raises. */
    method Commit(fails: bool) returns (ok: bool)
      modifies this
      ensures ok == !fails
      ensures trace == if ok then old(trace) + [Committed] else old(trace)
    {
      ok := !fails;
      if ok {
        trace := trace + [Committed];
      }
    }
  }

  /** The rows that the commits of `trace` make durable, in order, when `pending`
      rows were inserted but not yet committed before it. */
  function Durable(trace: seq<Event>, pending: seq<seq<Value>>): (rows: seq<seq<Value>>)
  {
    if trace == [] then []
    else match trace[0]
      case Executed(stmt) => Durable(trace[1..], pending + [stmt.values])
      case Committed => pending + Durable(trace[1..], [])
  }

  /** The rows inserted but not yet committed after `trace`. */
  function Pending(trace: seq<Event>, pending: seq<seq<Value>>): (rows: seq<seq<Value>>)
  {
    if trace == [] then pending
    else match trace[0]
      case Executed(stmt) => Pending(trace[1..], pending + [stmt.values])
      case Committed => Pending(trace[1..], [])
  }

  /** Running two traces one after the other makes durable what the first makes
      durable, then what the second makes durable from where the first left off. */
  lemma {:induction false} DurableAppend(t: seq<Event>, u: seq<Event>, pending: seq<seq<Value>>)
    ensures Durable(t + u, pending) == Durable(t, pending) + Durable(u, Pending(t, pending))
    ensures Pending(t + u, pending) == Pending(u, Pending(t, pending))
    decreases |t|
  {
    if t == [] {
      assert t + u == u;
    } else {
      assert (t + u)[0] == t[0];
      assert (t + u)[1..] == t[1..] + u;
      match t[0]
      case Executed(stmt) =>
        DurableAppend(t[1..], u, pending + [stmt.values]);
      case Committed =>
        DurableAppend(t[1..], u, []);
    }
  }

  /** Executing `CREATE TABLE name` and committing it, against a catalog of
      existing tables: the server fails with `injected` when given, before
      creating anything, fails with error 1050 when the table exists, and
      otherwise adds the table. Afterwards the table exists unless a failure
      was injected, and the catalog changes only on success. */
  function CreateInCatalog(catalog: set<string>, name: string, injected: Option<Failure>): (r: (set<string>, Option<Failure>))
    ensures r.1.None? <==> injected.None? && name !in catalog
    ensures injected.None? && name in catalog ==> r.1 == Some(DbError(ErrTableExists))
    ensures injected.Some? ==> r.1 == injected
    ensures r.0 == if r.1.None? then catalog + {name} else catalog
    ensures injected.None? ==> name in r.0
  {
    if injected.Some? then (catalog, injected)
    else if name in catalog then (catalog, Some(DbError(ErrTableExists)))
    else (catalog + {name}, None)
  }
}
