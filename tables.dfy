/**
 * The in-memory table the pipeline passes around: named columns over rows of
 * cells, each cell a value or the missing marker (pandas' NaN).
 */
module Tables {
  import opened Wrappers

  /** One cell of a parsed CSV: missing, a float, an integer, or text. */
  datatype Cell = Missing | Num(x: real) | Int(i: int) | Text(s: string)

  type Row = seq<Cell>

  datatype Table = Table(columns: seq<string>, rows: seq<Row>)

  /** Every row has exactly one cell per column. */
  predicate WellFormed(t: Table) {
    forall i :: 0 <= i < |t.rows| ==> |t.rows[i]| == |t.columns|
  }

  /** The position `df[name]` selects: the first column with that name. */
  function IndexOf(columns: seq<string>, name: string): (j: nat)
    requires name in columns
    ensures j < |columns| && columns[j] == name
    ensures name !in columns[..j]
  {
    if columns[0] == name then 0
    else
      assert columns == [columns[0]] + columns[1..];
      var j := IndexOf(columns[1..], name);
      assert columns[..j + 1] == [columns[0]] + columns[1..][..j];
      1 + j
  }

  /** Every row has a cell at position `j`. */
  predicate HasColumn(rows: seq<Row>, j: nat) {
    forall i :: 0 <= i < |rows| ==> j < |rows[i]|
  }

  /** The cells at position `j`, top to bottom. */
  function Column(rows: seq<Row>, j: nat): (col: seq<Cell>)
    requires HasColumn(rows, j)
    ensures |col| == |rows|
    ensures forall i :: 0 <= i < |rows| ==> col[i] == rows[i][j]
  {
    seq(|rows|, i requires 0 <= i < |rows| => rows[i][j])
  }

  /** The rows with the cells at position `j` replaced by `col`. */
  function SetColumn(rows: seq<Row>, j: nat, col: seq<Cell>): (r: seq<Row>)
    requires HasColumn(rows, j) && |col| == |rows|
    ensures |r| == |rows|
    ensures forall i :: 0 <= i < |rows| ==> r[i] == rows[i][j := col[i]]
  {
    seq(|rows|, i requires 0 <= i < |rows| => rows[i][j := col[i]])
  }

  /** The rows with `col` added as a new last cell. */
  function AppendColumn(rows: seq<Row>, col: seq<Cell>): (r: seq<Row>)
    requires |col| == |rows|
    ensures |r| == |rows|
  {
    seq(|rows|, i requires 0 <= i < |rows| => rows[i] + [col[i]])
  }

  /**
   * `df[name] = col`: an existing column of that name is overwritten where it
   * stands, otherwise the column is added at the end. Either way `df[name]`
   * then reads `col` and no other cell changes.
   */
  function Assign(t: Table, name: string, col: seq<Cell>): (r: Table)
    requires WellFormed(t) && |col| == |t.rows|
    ensures WellFormed(r) && |r.rows| == |t.rows|
    ensures name in r.columns && Column(r.rows, IndexOf(r.columns, name)) == col
    ensures name in t.columns ==> r.columns == t.columns
    ensures name !in t.columns ==> r.columns == t.columns + [name]
    ensures forall i, k :: 0 <= i < |t.rows| && 0 <= k < |t.columns| && t.columns[k] != name ==>
      r.rows[i][k] == t.rows[i][k]
  {
    if name in t.columns then
      var j := IndexOf(t.columns, name);
      Table(t.columns, SetColumn(t.rows, j, col))
    else
      var r := Table(t.columns + [name], AppendColumn(t.rows, col));
      assert IndexOf(r.columns, name) == |t.columns| by {
        assert name !in r.columns[..|t.columns|];
      }
      r
  }

  /**
   * The column with every missing cell replaced by `v` (pandas' `fillna(v)`):
   * present cells stay as they are, and with a present `v` no cell is left
   * missing.
   */
  function FillMissing(col: seq<Cell>, v: Cell): (r: seq<Cell>)
    ensures |r| == |col|
    ensures forall i :: 0 <= i < |col| && col[i].Missing? ==> r[i] == v
    ensures forall i :: 0 <= i < |col| && !col[i].Missing? ==> r[i] == col[i]
    ensures !v.Missing? ==> forall i :: 0 <= i < |r| ==> !r[i].Missing?
  {
    seq(|col|, i requires 0 <= i < |col| => if col[i].Missing? then v else col[i])
  }

  /** Some cell holds text: the column is not numeric. */
  predicate HasText(col: seq<Cell>) {
    exists i :: 0 <= i < |col| && col[i].Text?
  }

  /** How many cells of the column are present (not NaN). */
  function PresentCount(col: seq<Cell>): nat {
    if col == [] then 0 else (if col[0].Missing? then 0 else 1) + PresentCount(col[1..])
  }

  /** Counting the present cells of a prefix, first cell apart. */
  lemma PresentCountPrefixes(col: seq<Cell>)
    requires col != []
    ensures forall i :: 1 <= i <= |col| ==>
      PresentCount(col[..i]) == (if col[0].Missing? then 0 else 1) + PresentCount(col[1..][..i - 1])
  {
    forall i | 1 <= i <= |col|
      ensures PresentCount(col[..i]) == (if col[0].Missing? then 0 else 1) + PresentCount(col[1..][..i - 1])
    {
      assert col[..i][0] == col[0] && col[..i][1..] == col[1..][..i - 1];
    }
  }

  /** The number a numeric cell holds. */
  function AsReal(c: Cell): real {
    match c
    case Num(x) => x
    case Int(i) => i as real
    case _ => 0.0
  }

  /**
   * The present values of a numeric column, in order, as pandas' skip-NaN
   * statistics see them; `None` when a cell holds text, which makes those
   * statistics raise. There is one value per present cell, and the present
   * cell at row `i`, with `PresentCount(col[..i])` present cells above it,
   * gives the value at that position.
   */
  function Numbers(col: seq<Cell>): (r: Option<seq<real>>)
    ensures r.None? <==> HasText(col)
    ensures r.Some? ==> (r.value == [] <==> forall i :: 0 <= i < |col| ==> col[i].Missing?)
    ensures r.Some? ==> |r.value| == PresentCount(col)
    ensures r.Some? ==> forall i :: 0 <= i < |col| && !col[i].Missing? ==>
              PresentCount(col[..i]) < |r.value| && r.value[PresentCount(col[..i])] == AsReal(col[i])
  {
    if col == [] then Some([])
    else
      var rest := Numbers(col[1..]);
      assert forall i :: 1 <= i < |col| ==> col[i] == col[1..][i - 1];
      assert col[..0] == [];
      PresentCountPrefixes(col);
      match col[0]
      case Text(_) => None
      case Missing => rest
      case Num(x) => if rest.None? then None else Some([x] + rest.value)
      case Int(i) => if rest.None? then None else Some([i as real] + rest.value)
  }

  /**
   * `after` is `before` with the missing cells of column `j` replaced by `v`:
   * same rows, present cells of column `j` and every other cell unchanged.
   */
  predicate FilledAt(before: seq<Row>, after: seq<Row>, j: nat, v: Cell) {
    && |after| == |before|
    && forall i :: 0 <= i < |before| ==>
      && j < |before[i]| && |after[i]| == |before[i]|
      && (forall k :: 0 <= k < |before[i]| && k != j ==> after[i][k] == before[i][k])
      && after[i][j] == (if before[i][j].Missing? then v else before[i][j])
  }

  /** Filling column `j` with `v` changes exactly the missing cells of that column. */
  lemma FillColumnFills(rows: seq<Row>, j: nat, v: Cell)
    requires HasColumn(rows, j)
    ensures FilledAt(rows, SetColumn(rows, j, FillMissing(Column(rows, j), v)), j, v)
  {
  }
}
