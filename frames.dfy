/**
 * A pandas DataFrame as a mutable object: its column labels and its rows,
 * with the in-place operations the pipeline performs on it.
 */
module Frames {
  import opened Tables
  import Dedup

  class Frame {
    var columns: seq<string>
    var rows: seq<Row>

    /** Every row has one cell per column. */
    ghost predicate Valid()
      reads this
    {
      WellFormed(Table(columns, rows))
    }

    /** The table the frame currently holds. */
    function Value(): Table
      reads this
    {
      Table(columns, rows)
    }

    /** The frame `pd.read_csv` builds from a parsed table. */
    constructor (t: Table)
      requires WellFormed(t)
      ensures Valid() && Value() == t
    {
      columns := t.columns;
      rows := t.rows;
    }

    /**
     * `df.columns = names`: the labels are replaced when there is one per
     * column; otherwise pandas raises a length-mismatch error and the frame
     * is left as it was.
     */
    method SetColumns(names: seq<string>) returns (ok: bool)
      requires Valid()
      modifies this
      ensures Valid()
      ensures ok <==> |names| == |old(columns)|
      ensures columns == (if ok then names else old(columns))
      ensures rows == old(rows)
    {
      ok := |names| == |columns|;
      if ok {
        columns := names;
      }
    }

    /** Fills the missing cells of column `j` with `v`, in place. */
    method FillNa(j: nat, v: Cell)
      requires Valid() && j < |columns|
      modifies this
      ensures Valid() && columns == old(columns)
      ensures rows == SetColumn(old(rows), j, FillMissing(Column(old(rows), j), v))
      ensures FilledAt(old(rows), rows, j, v)
    {
      FillColumnFills(rows, j, v);
      rows := SetColumn(rows, j, FillMissing(Column(rows, j), v));
    }

    /** Assigns a whole column by label: overwritten where it stands, or appended. */
    method AssignColumn(name: string, col: seq<Cell>)
      requires Valid() && |col| == |rows|
      modifies this
      ensures Valid() && Value() == Assign(old(Value()), name, col)
    {
      var t := Assign(Value(), name, col);
      columns, rows := t.columns, t.rows;
    }

    /** Drops duplicate rows in place, keeping first occurrences. */
    method DropDuplicates()
      requires Valid()
      modifies this
      ensures Valid() && columns == old(columns)
      ensures rows == Dedup.DropDuplicates(old(rows))
    {
      rows := Dedup.DropDuplicates(rows);
    }
  }
}
