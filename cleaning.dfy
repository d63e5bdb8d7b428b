/**
 * The cleaning steps of the student-CSV handler as functions on tables, in
 * the order the handler applies them, and their composition `Clean`. A step
 * that pandas would abort with an exception returns `Failure`.
 */
module Cleaning {
  import opened Wrappers
  import opened Tables
  import Text
  import Stats
  import SleepBins
  import Dedup

  const Attendance := "attendance_(%)"
  const AssignmentsAvg := "assignments_avg"
  const ParentEducation := "parent_education_level"
  const StressLevel := "stress_level_(1-10)"
  const SleepHours := "sleep_hours_per_night"
  const SleepCategory := "sleep_category"
  const Unknown := Text("Unknown")

  /** The exceptions pandas raises on the way: a column that is not there, text where numbers are needed, a cell `astype(int)` cannot convert. */
  datatype CleanError = KeyError(column: string) | TypeError(column: string) | ValueError(column: string)

  // ------------------------------------------------------- header normalisation

  /**
   * Every column label stripped of surrounding whitespace, lower-cased, and
   * with each space replaced by an underscore.
   */
  function NormalizeHeaders(columns: seq<string>): (r: seq<string>)
    ensures |r| == |columns|
    ensures forall k :: 0 <= k < |r| ==> r[k] == Text.NormalizeHeader(columns[k])
    ensures forall k :: 0 <= k < |r| ==> ' ' !in r[k] && Text.Trimmed(r[k])
  {
    seq(|columns|, k requires 0 <= k < |columns| => Text.NormalizeHeader(columns[k]))
  }

  lemma NormalizeHeadersIdempotent(columns: seq<string>)
    ensures NormalizeHeaders(NormalizeHeaders(columns)) == NormalizeHeaders(columns)
  {
    var r := NormalizeHeaders(columns);
    forall k | 0 <= k < |r| ensures Text.NormalizeHeader(r[k]) == r[k] {
      Text.NormalizeHeaderIdempotent(columns[k]);
    }
  }

  /** The header step: new column names, the same rows. */
  function NormalizeColumns(t: Table): (r: Table)
    requires WellFormed(t)
    ensures WellFormed(r) && r.rows == t.rows && r.columns == NormalizeHeaders(t.columns)
  {
    Table(NormalizeHeaders(t.columns), t.rows)
  }

  // ----------------------------------------------------------------- imputation

  datatype Statistic = Mean | Median

  /** The value `fillna` receives: the statistic of the present values, or NaN when none is present. */
  function FillValue(xs: seq<real>, stat: Statistic): (v: Cell)
    ensures xs == [] <==> v.Missing?
    ensures xs != [] ==> v.Num? && Stats.Min(xs) <= v.x <= Stats.Max(xs)
  {
    if xs == [] then Missing
    else Num(match stat case Mean => Stats.Mean(xs) case Median => Stats.Median(xs))
  }

  /**
   * Filling the missing cells of a column with its mean (or median): fails with a KeyError
   * when the column is absent and with a TypeError when it holds text;
   * otherwise only the missing cells of that column change, each to the
   * statistic of the column's present values, and they stay missing when no
   * value is present.
   */
  function Impute(t: Table, name: string, stat: Statistic): (r: Result<Table, CleanError>)
    requires WellFormed(t)
    ensures name !in t.columns ==> r == Failure(KeyError(name))
    ensures name in t.columns ==>
              (r.Failure? <==> HasText(Column(t.rows, IndexOf(t.columns, name))))
    ensures name in t.columns && r.Failure? ==> r.error == TypeError(name)
    ensures r.Success? ==>
              && name in t.columns
              && WellFormed(r.value) && r.value.columns == t.columns
              && var j := IndexOf(t.columns, name);
                 var xs := Numbers(Column(t.rows, j));
                 xs.Some? && FilledAt(t.rows, r.value.rows, j, FillValue(xs.value, stat))
  {
    if name !in t.columns then Failure(KeyError(name))
    else
      var j := IndexOf(t.columns, name);
      var col := Column(t.rows, j);
      match Numbers(col)
      case None => Failure(TypeError(name))
      case Some(xs) =>
        var v := FillValue(xs, stat);
        FillColumnFills(t.rows, j, v);
        Success(Table(t.columns, SetColumn(t.rows, j, FillMissing(col, v))))
  }

  /** Filling the missing cells of a column with a constant: fails only when the column is absent. */
  function FillConstant(t: Table, name: string, v: Cell): (r: Result<Table, CleanError>)
    requires WellFormed(t)
    ensures r.Failure? <==> name !in t.columns
    ensures r.Failure? ==> r.error == KeyError(name)
    ensures r.Success? ==>
              && WellFormed(r.value) && r.value.columns == t.columns
              && FilledAt(t.rows, r.value.rows, IndexOf(t.columns, name), v)
  {
    if name !in t.columns then Failure(KeyError(name))
    else
      var j := IndexOf(t.columns, name);
      FillColumnFills(t.rows, j, v);
      Success(Table(t.columns, SetColumn(t.rows, j, FillMissing(Column(t.rows, j), v))))
  }

  // -------------------------------------------------------------- type coercion

  /** `int(x)` of a float: truncation toward zero. */
  function Truncate(x: real): (n: int)
    ensures 0.0 <= x ==> n as real <= x < n as real + 1.0
    ensures x < 0.0 ==> n as real - 1.0 < x <= n as real
  {
    if x >= 0.0 then x.Floor else -((-x).Floor)
  }

  /**
   * One cell under the integer conversion; `None` is the ValueError it raises
   * for NaN and for text `int()` rejects. An integer stays itself, a float is
   * truncated toward zero, and text converts exactly when, once the whitespace
   * `int()` skips is stripped, it is an optional sign and digits.
   */
  function IntOf(c: Cell): (r: Option<int>)
    ensures c.Missing? ==> r.None?
    ensures c.Int? ==> r == Some(c.i)
    ensures c.Num? && 0.0 <= c.x ==> r.Some? && r.value as real <= c.x < r.value as real + 1.0
    ensures c.Num? && c.x < 0.0 ==> r.Some? && r.value as real - 1.0 < c.x <= r.value as real
    ensures c.Text? ==> (r.Some? <==> var t := Text.StripBy(Text.IntSpace, c.s);
              |t| > 0 && Text.IsDigits(if t[0] == '+' || t[0] == '-' then t[1..] else t))
  {
    match c
    case Missing => None
    case Num(x) => Some(Truncate(x))
    case Int(i) => Some(i)
    case Text(s) => Text.ParseInt(s)
  }

  predicate Convertible(col: seq<Cell>) {
    forall i :: 0 <= i < |col| ==> IntOf(col[i]).Some?
  }

  /** The converted column: every cell the integer `astype(int)` gives for it. */
  function Ints(col: seq<Cell>): (r: seq<Cell>)
    requires Convertible(col)
    ensures |r| == |col|
  {
    seq(|col|, i requires 0 <= i < |col| => Int(IntOf(col[i]).value))
  }

  /**
   * Replacing a column by its integer conversion, all or nothing: when every cell
   * converts, each cell of the column becomes the integer it converts to and
   * nothing else changes; when one cell does not, the step fails with a
   * ValueError and no cell is converted.
   */
  function CoerceInt(t: Table, name: string): (r: Result<Table, CleanError>)
    requires WellFormed(t)
    ensures name !in t.columns ==> r == Failure(KeyError(name))
    ensures name in t.columns ==> (r.Success? <==> Convertible(Column(t.rows, IndexOf(t.columns, name))))
    ensures name in t.columns && r.Failure? ==> r.error == ValueError(name)
    ensures r.Success? ==>
              && name in t.columns
              && WellFormed(r.value) && r.value.columns == t.columns && |r.value.rows| == |t.rows|
              && var j := IndexOf(t.columns, name);
                 forall i :: 0 <= i < |t.rows| ==>
                   && IntOf(t.rows[i][j]).Some?
                   && (forall k :: 0 <= k < |t.columns| && k != j ==> r.value.rows[i][k] == t.rows[i][k])
                   && r.value.rows[i][j] == Int(IntOf(t.rows[i][j]).value)
  {
    if name !in t.columns then Failure(KeyError(name))
    else
      var j := IndexOf(t.columns, name);
      var col := Column(t.rows, j);
      if Convertible(col) then Success(Table(t.columns, SetColumn(t.rows, j, Ints(col))))
      else Failure(ValueError(name))
  }

  // ------------------------------------------------------------- sleep category

  /**
   * The category the binning gives one hours cell: the label of the bin of its
   * hours, and missing for NaN and for hours outside (0,12].
   */
  function CategoryOf(c: Cell): (r: Cell)
    ensures r.Missing? || r.Text?
    ensures (c.Num? || c.Int?) && SleepBins.Category(AsReal(c)).Some? ==> r == Text(SleepBins.Category(AsReal(c)).value)
    ensures !r.Missing? <==> (c.Num? || c.Int?) && 0.0 < AsReal(c) <= 12.0
  {
    var h := match c case Num(x) => Some(x) case Int(i) => Some(i as real) case _ => None;
    if h.None? then Missing
    else match SleepBins.Category(h.value)
      case None => Missing
      case Some(s) => Text(s)
  }

  /**
   * Binning the hours column into the category column: fails with a KeyError
   * when the hours column is absent and with a TypeError when it holds text; otherwise the category
   * column holds, row by row, the category of that row's hours, and every
   * other column is unchanged.
   */
  function Categorize(t: Table): (r: Result<Table, CleanError>)
    requires WellFormed(t)
    ensures SleepHours !in t.columns ==> r == Failure(KeyError(SleepHours))
    ensures SleepHours in t.columns ==>
              (r.Failure? <==> HasText(Column(t.rows, IndexOf(t.columns, SleepHours))))
    ensures SleepHours in t.columns && r.Failure? ==> r.error == TypeError(SleepHours)
    ensures r.Success? ==>
              && SleepHours in t.columns
              && WellFormed(r.value) && |r.value.rows| == |t.rows|
              && r.value.columns == (if SleepCategory in t.columns then t.columns else t.columns + [SleepCategory])
              && var h := IndexOf(t.columns, SleepHours);
                 var c := IndexOf(r.value.columns, SleepCategory);
                 forall i :: 0 <= i < |t.rows| ==>
                   && r.value.rows[i][c] == CategoryOf(t.rows[i][h])
                   && (forall k :: 0 <= k < |t.columns| && k != c ==> r.value.rows[i][k] == t.rows[i][k])
  {
    if SleepHours !in t.columns then Failure(KeyError(SleepHours))
    else
      var col := Column(t.rows, IndexOf(t.columns, SleepHours));
      if HasText(col) then Failure(TypeError(SleepHours))
      else
        var cats := seq(|col|, i requires 0 <= i < |col| => CategoryOf(col[i]));
        var r := Assign(t, SleepCategory, cats);
        assert forall i :: 0 <= i < |t.rows| ==> r.rows[i][IndexOf(r.columns, SleepCategory)] == cats[i];
        Success(r)
  }

  // ------------------------------------------------------------- deduplication

  /** Dropping duplicate rows: whole rows compared, first occurrences kept. */
  function DropDuplicates(t: Table): (r: Table)
    requires WellFormed(t)
    ensures WellFormed(r) && r.columns == t.columns
    ensures forall i :: 0 <= i < |t.rows| ==> t.rows[i] in r.rows
    ensures forall k :: 0 <= k < |r.rows| ==> r.rows[k] in t.rows
    ensures Dedup.Distinct(r.rows) && |r.rows| <= |t.rows|
  {
    Table(t.columns, Dedup.DropDuplicates(t.rows))
  }

  // ----------------------------------------------------------------- the whole

  /**
   * The cleaning handler's table transformation, step by step in the handler's
   * order; a failure is the error of the first step that raises. A success
   * has no more rows than the input and no two equal rows.
   */
  function Clean(raw: Table): (r: Result<Table, CleanError>)
    requires WellFormed(raw)
    ensures r.Success? ==> WellFormed(r.value)
    ensures r.Success? ==> |r.value.rows| <= |raw.rows| && Dedup.Distinct(r.value.rows)
  {
    var t0 := NormalizeColumns(raw);
    var t1 :- Impute(t0, Attendance, Mean);
    assert t1.columns == t0.columns && |t1.rows| == |raw.rows|;
    var t2 :- Impute(t1, AssignmentsAvg, Median);
    assert t2.columns == t0.columns && |t2.rows| == |raw.rows|;
    var t3 :- FillConstant(t2, ParentEducation, Unknown);
    assert t3.columns == t0.columns && |t3.rows| == |raw.rows|;
    var t4 :- CoerceInt(t3, StressLevel);
    assert t4.columns == t0.columns && |t4.rows| == |raw.rows|;
    var t5 :- Categorize(t4);
    Success(DropDuplicates(t5))
  }
}
