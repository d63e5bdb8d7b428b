/**
 * The load job: read the cleaned table, give it the 24 column names of the
 * target table, and insert its rows into `students_grading` in batches of
 * 100, one transaction per batch, stopping at the first batch that fails.
 */
module S3ToPostgres {
  import opened Wrappers
  import opened Tables
  import opened Upsert
  import opened Batching
  import Frames

  /** The columns of `students_grading`, in table order. */
  const TableColumns: seq<string> := [
    "student_id", "first_name", "last_name", "email", "gender", "age",
    "department", "attendance_percentage", "midterm_score", "final_score",
    "assignments_avg", "quizzes_avg", "participation_score", "projects_score",
    "total_score", "grade", "study_hours_per_week", "extracurricular_activities",
    "internet_access_at_home", "parent_education_level", "family_income_level",
    "stress_level", "sleep_hours_per_night", "sleep_category"
  ]

  // ------------------------------------------------------------------ reading

  /**
   * `read_csv_from_s3`: `fetched` is what `get_object` and `read_csv` produced
   * (`None` when either raised). The frame comes back only when it has
   * exactly 24 columns, and then under the table's column names with its rows
   * untouched; every failure gives `None`.
   */
  method ReadCsvFromS3(fetched: Option<Table>) returns (df: Frames.Frame?)
    requires fetched.Some? ==> WellFormed(fetched.value)
    ensures df != null <==> fetched.Some? && |fetched.value.columns| == |TableColumns|
    ensures df != null ==>
              && fresh(df) && df.Valid()
              && df.columns == TableColumns && df.rows == fetched.value.rows
  {
    if fetched.None? {
      return null;
    }
    df := new Frames.Frame(fetched.value);
    var ok := df.SetColumns(TableColumns);
    if !ok {
      return null;
    }
  }

  // ----------------------------------------------------- what the driver sees

  /** The calls the loader makes on the connection and cursor, in order. */
  datatype Event = Executed(batch: seq<Row>) | Committed | RolledBack | CursorClosed | ConnectionClosed

  /**
   * The database takes a row when its `student_id` is present (a missing one
   * is sent as `'NaN'::float`, which the integer key column refuses) and its
   * other checks, `accept`, pass.
   */
  predicate Admits(row: Row, accept: Row -> bool) {
    HasKey(row) && accept(row)
  }

  /** The database takes every row of the batch. */
  predicate Accepted(batch: seq<Row>, accept: Row -> bool) {
    forall i :: 0 <= i < |batch| ==> Admits(batch[i], accept)
  }

  /** The position of the first row the database rejects, or the batch length. */
  function FirstRejected(batch: seq<Row>, accept: Row -> bool): (n: nat)
    ensures n <= |batch|
    ensures forall i :: 0 <= i < n ==> Admits(batch[i], accept)
    ensures n < |batch| ==> !Admits(batch[n], accept)
  {
    if batch == [] || !Admits(batch[0], accept) then 0 else 1 + FirstRejected(batch[1..], accept)
  }

  /** The position of the first batch containing a row the database rejects, or the number of batches. */
  function FailedBatch(bs: seq<seq<Row>>, accept: Row -> bool): (k: nat)
    ensures k <= |bs|
    ensures forall j :: 0 <= j < k ==> Accepted(bs[j], accept)
    ensures k < |bs| ==> !Accepted(bs[k], accept)
  {
    if bs == [] || !Accepted(bs[0], accept) then 0 else 1 + FailedBatch(bs[1..], accept)
  }

  /** The table after the loop: each accepted batch inserted and committed, up to the first rejected one. */
  function Load(t: Store, bs: seq<seq<Row>>, accept: Row -> bool): Store
    decreases |bs|
  {
    if bs == [] then t
    else if Accepted(bs[0], accept) then Load(InsertAll(t, bs[0]), bs[1..], accept)
    else t
  }

  /** The driver calls of the loop: execute and commit each batch, execute and roll back the failing one. */
  function Trace(bs: seq<seq<Row>>, accept: Row -> bool): seq<Event> {
    if bs == [] then []
    else if Accepted(bs[0], accept) then [Executed(bs[0]), Committed] + Trace(bs[1..], accept)
    else [Executed(bs[0]), RolledBack]
  }

  /** One turn of the loop, in terms of its first batch, with the log written so far in front. */
  lemma LoadStep(t: Store, log: seq<Event>, batch: seq<Row>, rest: seq<seq<Row>>, accept: Row -> bool)
    ensures Accepted(batch, accept) ==>
              && Load(t, [batch] + rest, accept) == Load(InsertAll(t, batch), rest, accept)
              && log + Trace([batch] + rest, accept) == (log + [Executed(batch), Committed]) + Trace(rest, accept)
    ensures !Accepted(batch, accept) ==>
              && Load(t, [batch] + rest, accept) == t
              && log + Trace([batch] + rest, accept) == log + [Executed(batch), RolledBack]
  {
    var bs := [batch] + rest;
    assert bs[0] == batch && bs[1..] == rest;
  }

  /** Rows already in the table are never changed or removed by the load. */
  lemma {:induction false} LoadKeepsStored(t: Store, bs: seq<seq<Row>>, accept: Row -> bool)
    ensures forall k :: k in t ==> k in Load(t, bs, accept) && Load(t, bs, accept)[k] == t[k]
    decreases |bs|
  {
    if bs != [] && Accepted(bs[0], accept) {
      LoadKeepsStored(InsertAll(t, bs[0]), bs[1..], accept);
    }
  }

  /**
   * The loop makes two calls per batch up to and including the failing one:
   * an execute, then its commit or rollback.
   */
  lemma {:induction false} TraceLength(bs: seq<seq<Row>>, accept: Row -> bool)
    ensures var k := FailedBatch(bs, accept);
      |Trace(bs, accept)| == 2 * (if k < |bs| then k + 1 else |bs|)
    ensures forall i :: 0 <= i < |Trace(bs, accept)| ==> (Trace(bs, accept)[i].Executed? <==> i % 2 == 0)
    decreases |bs|
  {
    if bs != [] && Accepted(bs[0], accept) {
      TraceLength(bs[1..], accept);
      var rest := Trace(bs[1..], accept);
      var r := Trace(bs, accept);
      assert r == [Executed(bs[0]), Committed] + rest;
      forall i | 2 <= i < |r|
        ensures r[i] == rest[i - 2] && (i % 2 == 0 <==> (i - 2) % 2 == 0)
      {
      }
    }
  }

  /** The batches a log shows as executed, in order. */
  function ExecutedBatches(log: seq<Event>): seq<seq<Row>> {
    if log == [] then []
    else (if log[0].Executed? then [log[0].batch] else []) + ExecutedBatches(log[1..])
  }

  /** How many commits a log shows. */
  function Commits(log: seq<Event>): nat {
    if log == [] then 0 else (if log[0] == Committed then 1 else 0) + Commits(log[1..])
  }

  /** The table after the loop holds exactly the rows of the batches before the first failure. */
  lemma {:induction false} LoadCommitsPrefix(t: Store, bs: seq<seq<Row>>, accept: Row -> bool)
    ensures Load(t, bs, accept) == InsertAll(t, Flatten(bs[..FailedBatch(bs, accept)]))
    decreases |bs|
  {
    var k := FailedBatch(bs, accept);
    if k == 0 {
      assert bs[..k] == [];
    } else {
      LoadCommitsPrefix(InsertAll(t, bs[0]), bs[1..], accept);
      assert bs[1..][..k - 1] == bs[..k][1..];
      InsertAllAppend(t, bs[0], Flatten(bs[1..][..k - 1]));
    }
  }

  lemma {:induction false} ExecutedAppend(a: seq<Event>, b: seq<Event>)
    ensures ExecutedBatches(a + b) == ExecutedBatches(a) + ExecutedBatches(b)
    decreases |a|
  {
    if a == [] {
      assert a + b == b;
    } else {
      assert (a + b)[0] == a[0] && (a + b)[1..] == a[1..] + b;
      ExecutedAppend(a[1..], b);
    }
  }

  lemma {:induction false} CommitsAppend(a: seq<Event>, b: seq<Event>)
    ensures Commits(a + b) == Commits(a) + Commits(b)
    decreases |a|
  {
    if a == [] {
      assert a + b == b;
    } else {
      assert (a + b)[0] == a[0] && (a + b)[1..] == a[1..] + b;
      CommitsAppend(a[1..], b);
    }
  }

  lemma LogPair(batch: seq<Row>, e: Event)
    requires e == Committed || e == RolledBack
    ensures ExecutedBatches([Executed(batch), e]) == [batch]
    ensures Commits([Executed(batch), e]) == (if e == Committed then 1 else 0)
  {
    var p := [Executed(batch), e];
    assert p[1..] == [e];
    assert [e][1..] == [];
    assert ExecutedBatches([e]) == [] && Commits([e]) == (if e == Committed then 1 else 0);
  }

  /** The batches executed are those up to and including the failing one. */
  lemma {:induction false} TraceExecuted(bs: seq<seq<Row>>, accept: Row -> bool)
    ensures var k := FailedBatch(bs, accept);
      ExecutedBatches(Trace(bs, accept)) == bs[..if k < |bs| then k + 1 else k]
    decreases |bs|
  {
    if bs != [] {
      var k := FailedBatch(bs, accept);
      if Accepted(bs[0], accept) {
        TraceExecuted(bs[1..], accept);
        ExecutedAppend([Executed(bs[0]), Committed], Trace(bs[1..], accept));
        LogPair(bs[0], Committed);
        assert bs[..if k < |bs| then k + 1 else k] == [bs[0]] + bs[1..][..if k - 1 < |bs| - 1 then k else k - 1];
      } else {
        LogPair(bs[0], RolledBack);
        assert bs[..1] == [bs[0]];
      }
    }
  }

  /** Exactly the batches before the failing one are committed. */
  lemma {:induction false} TraceCommits(bs: seq<seq<Row>>, accept: Row -> bool)
    ensures Commits(Trace(bs, accept)) == FailedBatch(bs, accept)
    decreases |bs|
  {
    if bs != [] {
      if Accepted(bs[0], accept) {
        TraceCommits(bs[1..], accept);
        CommitsAppend([Executed(bs[0]), Committed], Trace(bs[1..], accept));
        LogPair(bs[0], Committed);
      } else {
        LogPair(bs[0], RolledBack);
      }
    }
  }

  /** There is a rollback exactly when a batch fails, and it is the last call of the loop. */
  lemma {:induction false} TraceRollsBack(bs: seq<seq<Row>>, accept: Row -> bool)
    ensures var k := FailedBatch(bs, accept);
      && (k < |bs| <==> RolledBack in Trace(bs, accept))
      && (k < |bs| ==> Trace(bs, accept)[|Trace(bs, accept)| - 1] == RolledBack)
    decreases |bs|
  {
    if bs != [] && Accepted(bs[0], accept) {
      TraceRollsBack(bs[1..], accept);
      var rest := Trace(bs[1..], accept);
      assert Trace(bs, accept) == [Executed(bs[0]), Committed] + rest;
      assert RolledBack in Trace(bs, accept) <==> RolledBack in rest;
    }
  }

  /**
   * The batches before the failing one are executed and committed, the
   * failing one is executed and rolled back, and no batch after it is
   * executed.
   */
  lemma TraceStopsAtFailure(bs: seq<seq<Row>>, accept: Row -> bool)
    ensures var k := FailedBatch(bs, accept);
      && ExecutedBatches(Trace(bs, accept)) == bs[..if k < |bs| then k + 1 else k]
      && Commits(Trace(bs, accept)) == k
      && (k < |bs| <==> RolledBack in Trace(bs, accept))
      && (k < |bs| ==> Trace(bs, accept)[|Trace(bs, accept)| - 1] == RolledBack)
  {
    TraceExecuted(bs, accept);
    TraceCommits(bs, accept);
    TraceRollsBack(bs, accept);
  }

  /** Both parts of an accepted batch are accepted. */
  lemma AcceptedSplit(rows: seq<Row>, m: nat, accept: Row -> bool)
    requires Accepted(rows, accept) && m <= |rows|
    ensures Accepted(rows[..m], accept) && Accepted(rows[m..], accept)
  {
    assert forall i :: 0 <= i < |rows| - m ==> rows[m..][i] == rows[m + i];
  }

  /** When the database accepts every row, the load inserts all of `data`, in order. */
  lemma {:induction false} LoadAccepted(t: Store, data: seq<Row>, accept: Row -> bool)
    requires Accepted(data, accept)
    ensures Load(t, Batches(data), accept) == InsertAll(t, data)
    decreases |data|
  {
    if data != [] {
      var m := Min(|data|, BatchSize);
      var bs := Batches(data);
      assert bs[0] == data[..m] && bs[1..] == Batches(data[m..]);
      AcceptedSplit(data, m, accept);
      assert Load(t, bs, accept) == Load(InsertAll(t, data[..m]), Batches(data[m..]), accept);
      LoadAccepted(InsertAll(t, data[..m]), data[m..], accept);
      assert data == data[..m] + data[m..];
      InsertAllAppend(t, data[..m], data[m..]);
    }
  }

  /** No load stores a row under a missing (NaN) key: a table without one keeps without one. */
  lemma {:induction false} LoadNoMissingKey(t: Store, bs: seq<seq<Row>>, accept: Row -> bool)
    requires Missing !in t
    ensures Missing !in Load(t, bs, accept)
    decreases |bs|
  {
    if bs != [] && Accepted(bs[0], accept) {
      InsertAllSkips(t, bs[0]);
      LoadNoMissingKey(InsertAll(t, bs[0]), bs[1..], accept);
    }
  }

  /** Running the load a second time over the same data leaves the table as the first run did. */
  lemma LoadIdempotent(t: Store, bs: seq<seq<Row>>, accept: Row -> bool)
    ensures Load(Load(t, bs, accept), bs, accept) == Load(t, bs, accept)
  {
    var rows := Flatten(bs[..FailedBatch(bs, accept)]);
    LoadCommitsPrefix(t, bs, accept);
    LoadCommitsPrefix(InsertAll(t, rows), bs, accept);
    InsertAllIdempotent(t, rows);
  }

  // ------------------------------------------------------------ the database

  /**
   * The target database as one connection sees it: the committed table, the
   * table as the open transaction sees it, whether the connection and the
   * cursor are open, and the log of the calls made on them.
   */
  class Database {
    var committed: Store
    var txn: Store
    var connected: bool
    var cursorOpen: bool
    var log: seq<Event>

    /** Without a connection there is no cursor and no uncommitted change. */
    ghost predicate Valid()
      reads this
    {
      !connected ==> !cursorOpen && txn == committed
    }

    constructor (table: Store)
      ensures Valid() && committed == table && !connected && log == []
    {
      committed, txn := table, table;
      connected, cursorOpen := false, false;
      log := [];
    }

    /** `psycopg2.connect`: `reachable` is whether the server accepts the connection. */
    method Connect(reachable: bool) returns (ok: bool)
      requires Valid() && !connected
      modifies this
      ensures Valid() && ok == reachable && connected == ok && !cursorOpen
      ensures committed == old(committed) && txn == committed && log == old(log)
    {
      ok := reachable;
      connected := ok;
    }

    /** `conn.cursor()`. */
    method OpenCursor()
      requires Valid() && connected
      modifies this
      ensures Valid() && connected && cursorOpen
      ensures committed == old(committed) && txn == old(txn) && log == old(log)
    {
      cursorOpen := true;
    }

    /**
     * `cursor.executemany(insert_query, batch)`: the statement runs once per
     * row inside the open transaction, skipping rows whose key is already
     * there. It raises at the first row the database rejects (a NaN key, or
     * `accept` says no), having inserted the rows before it; nothing is
     * committed either way.
     */
    method ExecuteMany(batch: seq<Row>, accept: Row -> bool) returns (ok: bool)
      requires Valid() && connected && cursorOpen
      modifies this
      ensures Valid() && connected && cursorOpen && committed == old(committed)
      ensures log == old(log) + [Executed(batch)]
      ensures ok == Accepted(batch, accept)
      ensures txn == InsertAll(old(txn), batch[..FirstRejected(batch, accept)])
    {
      log := log + [Executed(batch)];
      var i := 0;
      while i < |batch|
        invariant 0 <= i <= |batch|
        invariant forall k :: 0 <= k < i ==> Admits(batch[k], accept)
        invariant txn == InsertAll(old(txn), batch[..i])
        invariant connected && cursorOpen && committed == old(committed)
        invariant log == old(log) + [Executed(batch)]
      {
        if !Admits(batch[i], accept) {
          assert FirstRejected(batch, accept) == i;
          return false;
        }
        InsertAllAppend(old(txn), batch[..i], [batch[i]]);
        InsertAllOne(txn, batch[i]);
        assert batch[..i + 1] == batch[..i] + [batch[i]];
        txn := InsertRow(txn, batch[i]);
        i := i + 1;
      }
      assert batch[..i] == batch;
      return true;
    }

    /** `conn.commit()`. */
    method Commit()
      requires Valid() && connected
      modifies this
      ensures Valid() && connected && cursorOpen == old(cursorOpen)
      ensures committed == old(txn) && txn == old(txn) && log == old(log) + [Committed]
    {
      committed := txn;
      log := log + [Committed];
    }

    /** `conn.rollback()`: the uncommitted inserts are discarded. */
    method Rollback()
      requires Valid() && connected
      modifies this
      ensures Valid() && connected && cursorOpen == old(cursorOpen)
      ensures committed == old(committed) && txn == committed && log == old(log) + [RolledBack]
    {
      txn := committed;
      log := log + [RolledBack];
    }

    /** `cursor.close()`. */
    method CloseCursor()
      requires Valid()
      modifies this
      ensures Valid() && !cursorOpen && connected == old(connected)
      ensures committed == old(committed) && txn == old(txn) && log == old(log) + [CursorClosed]
    {
      cursorOpen := false;
      log := log + [CursorClosed];
    }

    /** `conn.close()`: what has not been committed is lost. */
    method Close()
      requires Valid()
      modifies this
      ensures Valid() && !connected
      ensures committed == old(committed) && log == old(log) + [ConnectionClosed]
    {
      connected, cursorOpen := false, false;
      txn := committed;
      log := log + [ConnectionClosed];
    }
  }

  // --------------------------------------------------------------- the loader

  /**
   * One batch of the loop: execute the batch and commit it, or, when the
   * execution raises, roll the transaction back in the exception handler.
   */
  method RunBatch(db: Database, batch: seq<Row>, accept: Row -> bool) returns (ok: bool)
    requires db.Valid() && db.connected && db.cursorOpen && db.txn == db.committed
    modifies db
    ensures db.Valid() && db.connected && db.cursorOpen && db.txn == db.committed
    ensures ok == Accepted(batch, accept)
    ensures db.committed == if ok then InsertAll(old(db.committed), batch) else old(db.committed)
    ensures db.log == old(db.log) + [Executed(batch), if ok then Committed else RolledBack]
  {
    ok := db.ExecuteMany(batch, accept);
    if ok {
      assert FirstRejected(batch, accept) == |batch| && batch[..|batch|] == batch;
      db.Commit();
    } else {
      db.Rollback();
    }
  }

  /**
   * The batch loop: it walks the data in steps of 100 rows, runs batch after
   * batch, and leaves the loop at the first batch that raises.
   */
  method InsertBatches(db: Database, data: seq<Row>, accept: Row -> bool)
    requires db.Valid() && db.connected && db.cursorOpen && db.txn == db.committed
    modifies db
    ensures db.Valid() && db.connected && db.cursorOpen && db.txn == db.committed
    ensures db.committed == Load(old(db.committed), Batches(data), accept)
    ensures db.log == old(db.log) + Trace(Batches(data), accept)
  {
    ghost var bs := Batches(data);
    ghost var t0, log0 := db.committed, db.log;
    var i := 0;
    ghost var done := 0;
    while i < |data|
      invariant db.Valid() && db.connected && db.cursorOpen && db.txn == db.committed
      invariant done <= |bs| && i == BatchSize * done
      invariant done < |bs| <==> i < |data|
      invariant Load(db.committed, bs[done..], accept) == Load(t0, bs, accept)
      invariant db.log + Trace(bs[done..], accept) == log0 + Trace(bs, accept)
    {
      BatchAt(data, done);
      var batch := data[i..Min(i + BatchSize, |data|)];
      assert bs[done..] == [batch] + bs[done + 1..];
      LoadStep(db.committed, db.log, batch, bs[done + 1..], accept);
      var ok := RunBatch(db, batch, accept);
      if !ok {
        break;
      }
      i := i + BatchSize;
      done := done + 1;
    }
    if i >= |data| {
      assert bs[done..] == [];
    }
  }

  /**
   * `insert_data_into_postgres`: `reachable` stands for the outcome of
   * `connect_to_postgres` and `accept` for the database's verdict on a row.
   * Without a connection nothing is touched. Otherwise the committed table
   * and the calls made are those of `Load` and `Trace` over the batches,
   * and the cursor and the connection are closed on every path.
   */
  method InsertDataIntoPostgres(db: Database, data: seq<Row>, reachable: bool, accept: Row -> bool)
    requires db.Valid() && !db.connected
    modifies db
    ensures db.Valid() && !db.connected
    ensures !reachable ==> db.committed == old(db.committed) && db.log == old(db.log)
    ensures reachable ==>
              && db.committed == Load(old(db.committed), Batches(data), accept)
              && db.log == old(db.log) + Trace(Batches(data), accept) + [CursorClosed, ConnectionClosed]
  {
    var ok := db.Connect(reachable);
    if !ok {
      return;
    }
    db.OpenCursor();
    InsertBatches(db, data, accept);
    db.CloseCursor();
    db.Close();
  }

  /**
   * The job's top level: the insert runs only when the read gave a frame;
   * its rows are the ones `df.to_numpy()` hands to the loader.
   */
  method RunJob(fetched: Option<Table>, db: Database, reachable: bool, accept: Row -> bool)
    requires fetched.Some? ==> WellFormed(fetched.value)
    requires db.Valid() && !db.connected
    modifies db
    ensures db.Valid() && !db.connected
    ensures var read := fetched.Some? && |fetched.value.columns| == |TableColumns|;
      && (!(read && reachable) ==> db.committed == old(db.committed) && db.log == old(db.log))
      && (read && reachable ==>
            && db.committed == Load(old(db.committed), Batches(fetched.value.rows), accept)
            && db.log == old(db.log) + Trace(Batches(fetched.value.rows), accept) + [CursorClosed, ConnectionClosed])
  {
    var df := ReadCsvFromS3(fetched);
    if df != null {
      InsertDataIntoPostgres(db, df.rows, reachable, accept);
    }
  }
}
