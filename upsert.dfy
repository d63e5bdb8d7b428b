/**
 * `INSERT ... ON CONFLICT (student_id) DO NOTHING` over the target table,
 * seen as a map from `student_id` to the stored row.
 */
module Upsert {
  import opened Tables

  /** The rows of `students_grading`, keyed by `student_id`. */
  type Store = map<Cell, Row>

  /**
   * `student_id` of a row: its first cell. Rows reaching the loader carry the
   * 24 renamed columns, `student_id` first.
   */
  function Key(row: Row): Cell {
    if |row| > 0 then row[0] else Missing
  }

  /**
   * A row whose `student_id` cell is missing reaches the driver as a float
   * NaN, sent as `'NaN'::float`; the key column (an integer primary key)
   * refuses it, so such a row is rejected by the database rather than stored.
   */
  predicate HasKey(row: Row) {
    Key(row) != Missing
  }

  /**
   * The statement on one row: the row is stored under its key unless a row
   * with that key is already there, and no stored row ever changes.
   */
  function InsertRow(t: Store, row: Row): (r: Store)
    ensures Key(row) in r && r[Key(row)] == (if Key(row) in t then t[Key(row)] else row)
    ensures forall k :: k != Key(row) ==> (k in r <==> k in t)
    ensures forall k :: k in t ==> k in r && r[k] == t[k]
  {
    if Key(row) in t then t else t[Key(row) := row]
  }

  /** The first row of `rows` with key `k`: every row before it has another key. */
  function FirstWithKey(rows: seq<Row>, k: Cell): (r: Row)
    requires exists i :: 0 <= i < |rows| && Key(rows[i]) == k
    ensures Key(r) == k
    ensures exists i :: 0 <= i < |rows| && rows[i] == r && forall j :: 0 <= j < i ==> Key(rows[j]) != k
  {
    if Key(rows[0]) == k then rows[0]
    else
      var r := FirstWithKey(rows[1..], k);
      assert forall j :: 1 <= j < |rows| ==> rows[j] == rows[1..][j - 1];
      r
  }

  /**
   * The statement executed once per row, in order: stored rows never change
   * and afterwards every row's key is stored.
   */
  function InsertAll(t: Store, rows: seq<Row>): (r: Store)
    ensures forall k :: k in t ==> k in r && r[k] == t[k]
    ensures forall i :: 0 <= i < |rows| ==> Key(rows[i]) in r
    decreases |rows|
  {
    if rows == [] then t
    else
      var r := InsertAll(InsertRow(t, rows[0]), rows[1..]);
      assert forall i :: 1 <= i < |rows| ==> rows[i] == rows[1..][i - 1];
      r
  }

  /**
   * What the inserts do: stored rows are never changed; a key is added
   * exactly when some row carries it and it was not stored, and then with the
   * first such row (a later row with the same key, even in the same batch, is
   * skipped).
   */
  lemma {:induction false} InsertAllSkips(t: Store, rows: seq<Row>)
    ensures forall k :: k in t ==> k in InsertAll(t, rows) && InsertAll(t, rows)[k] == t[k]
    ensures forall k :: k in InsertAll(t, rows) <==> k in t || exists i :: 0 <= i < |rows| && Key(rows[i]) == k
    ensures forall k :: k in InsertAll(t, rows) && k !in t ==> InsertAll(t, rows)[k] == FirstWithKey(rows, k)
    decreases |rows|
  {
    if rows != [] {
      InsertAllSkips(InsertRow(t, rows[0]), rows[1..]);
      assert forall i :: 1 <= i < |rows| ==> rows[i] == rows[1..][i - 1];
    }
  }

  /** Inserting one row is `InsertRow`. */
  lemma InsertAllOne(t: Store, row: Row)
    ensures InsertAll(t, [row]) == InsertRow(t, row)
  {
    assert [row][1..] == [];
  }

  /** Inserting `a` and then `b` is inserting `a + b`. */
  lemma {:induction false} InsertAllAppend(t: Store, a: seq<Row>, b: seq<Row>)
    ensures InsertAll(t, a + b) == InsertAll(InsertAll(t, a), b)
    decreases |a|
  {
    if a != [] {
      assert (a + b)[0] == a[0] && (a + b)[1..] == a[1..] + b;
      assert InsertAll(t, a + b) == InsertAll(InsertRow(t, a[0]), a[1..] + b);
      InsertAllAppend(InsertRow(t, a[0]), a[1..], b);
    } else {
      assert a + b == b;
    }
  }

  /** Rows whose keys are all stored change nothing. */
  lemma {:induction false} InsertAllPresent(t: Store, rows: seq<Row>)
    requires forall i :: 0 <= i < |rows| ==> Key(rows[i]) in t
    ensures InsertAll(t, rows) == t
    decreases |rows|
  {
    if rows != [] {
      InsertAllPresent(t, rows[1..]);
    }
  }

  /** Inserting the same rows a second time leaves the table as the first time did. */
  lemma InsertAllIdempotent(t: Store, rows: seq<Row>)
    ensures InsertAll(InsertAll(t, rows), rows) == InsertAll(t, rows)
  {
    InsertAllSkips(t, rows);
    InsertAllPresent(InsertAll(t, rows), rows);
  }
}
