/**
 * What the cleaning handler guarantees about the table it stores, and that
 * cleaning such a table again changes nothing.
 */
module CleaningProperties {
  import opened Wrappers
  import opened Tables
  import opened Cleaning
  import Text
  import Dedup

  /** A column with no text in which either every cell or no cell is missing. */
  predicate Settled(col: seq<Cell>) {
    && !HasText(col)
    && ((forall i :: 0 <= i < |col| ==> col[i].Missing?) || (forall i :: 0 <= i < |col| ==> !col[i].Missing?))
  }

  predicate NoMissing(col: seq<Cell>) {
    forall i :: 0 <= i < |col| ==> !col[i].Missing?
  }

  predicate AllInts(col: seq<Cell>) {
    forall i :: 0 <= i < |col| ==> col[i].Int?
  }

  /** Row by row, the cell at `c` is the sleep category of the cell at `h`. */
  predicate Categorized(rows: seq<Row>, c: nat, h: nat) {
    forall i :: 0 <= i < |rows| ==> c < |rows[i]| && h < |rows[i]| && rows[i][c] == CategoryOf(rows[i][h])
  }

  /** Labels in normal form, and the attendance column settled: the table after mean imputation. */
  ghost predicate AfterMean(t: Table) {
    && WellFormed(t)
    && NormalizeHeaders(t.columns) == t.columns
    && Attendance in t.columns
    && Settled(Column(t.rows, IndexOf(t.columns, Attendance)))
  }

  /** ... and the assignments column settled: the table after median imputation. */
  ghost predicate AfterMedian(t: Table) {
    && AfterMean(t)
    && AssignmentsAvg in t.columns
    && Settled(Column(t.rows, IndexOf(t.columns, AssignmentsAvg)))
  }

  /** ... and no education level missing: the table after the constant fill. */
  ghost predicate AfterUnknown(t: Table) {
    && AfterMedian(t)
    && ParentEducation in t.columns
    && NoMissing(Column(t.rows, IndexOf(t.columns, ParentEducation)))
  }

  /** ... and integer stress levels: the table after coercion. */
  ghost predicate AfterInt(t: Table) {
    && AfterUnknown(t)
    && StressLevel in t.columns
    && AllInts(Column(t.rows, IndexOf(t.columns, StressLevel)))
  }

  /**
   * ... and the category of every row agreeing with its hours: a table ready
   * to be stored except perhaps for duplicates.
   */
  ghost predicate Prepared(t: Table) {
    && AfterInt(t)
    && SleepHours in t.columns && SleepCategory in t.columns
    && !HasText(Column(t.rows, IndexOf(t.columns, SleepHours)))
    && Categorized(t.rows, IndexOf(t.columns, SleepCategory), IndexOf(t.columns, SleepHours))
  }

  /** A cleaned table: prepared, and no two rows equal. */
  ghost predicate IsClean(u: Table) {
    Prepared(u) && Dedup.Distinct(u.rows)
  }

  // ------------------------------------------------------------------- helpers

  lemma SetColumnSame(rows: seq<Row>, j: nat)
    requires HasColumn(rows, j)
    ensures SetColumn(rows, j, Column(rows, j)) == rows
  {
    var r := SetColumn(rows, j, Column(rows, j));
    forall i | 0 <= i < |rows| ensures r[i] == rows[i] {
      assert r[i] == rows[i][j := rows[i][j]];
    }
  }

  /** A name keeps its index when columns are appended after it. */
  lemma IndexOfPrefix(columns: seq<string>, more: seq<string>, name: string)
    requires name in columns
    ensures IndexOf(columns + more, name) == IndexOf(columns, name)
  {
    var j := IndexOf(columns, name);
    assert (columns + more)[..j] == columns[..j];
    assert (columns + more)[j] == name;
  }

  /** A header that is trimmed, has no space and no upper-case letter is its own normal form. */
  lemma NormalizeHeaderFixed(s: string)
    requires Text.Trimmed(s)
    requires forall k :: 0 <= k < |s| ==> s[k] != ' ' && Text.Lower(s[k]) == s[k]
    ensures Text.NormalizeHeader(s) == s
  {
    Text.StripTrimmed(s);
  }

  /** Appending the category label to normalised labels keeps them normalised. */
  lemma NormalizedAppend(columns: seq<string>)
    requires NormalizeHeaders(columns) == columns
    ensures NormalizeHeaders(columns + [SleepCategory]) == columns + [SleepCategory]
  {
    NormalizeHeaderFixed(SleepCategory);
    assert NormalizeHeaders(columns + [SleepCategory]) == NormalizeHeaders(columns) + [SleepCategory];
  }

  /** Keeping only rows of `a` keeps every column property that holds cell by cell. */
  lemma SubsetRows(a: seq<Row>, b: seq<Row>, k: nat)
    requires HasColumn(a, k)
    requires forall i :: 0 <= i < |b| ==> b[i] in a
    ensures HasColumn(b, k)
    ensures Settled(Column(a, k)) ==> Settled(Column(b, k))
    ensures NoMissing(Column(a, k)) ==> NoMissing(Column(b, k))
    ensures AllInts(Column(a, k)) ==> AllInts(Column(b, k))
    ensures !HasText(Column(a, k)) ==> !HasText(Column(b, k))
  {
    forall i | 0 <= i < |b| ensures Column(b, k)[i] in Column(a, k) {
      var i' :| 0 <= i' < |a| && a[i'] == b[i];
      assert Column(a, k)[i'] == b[i][k];
    }
  }

  lemma SubsetCategorized(a: seq<Row>, b: seq<Row>, c: nat, h: nat)
    requires Categorized(a, c, h)
    requires forall i :: 0 <= i < |b| ==> b[i] in a
    ensures Categorized(b, c, h)
  {
  }

  // ------------------------------------------------------------- step by step

  /** After imputation the column is settled and every other column is as it was. */
  lemma ImputeSettles(t: Table, name: string, stat: Statistic)
    requires WellFormed(t) && Impute(t, name, stat).Success?
    ensures var r := Impute(t, name, stat).value;
            var j := IndexOf(t.columns, name);
            && Settled(Column(r.rows, j))
            && forall k :: 0 <= k < |t.columns| && k != j ==> Column(r.rows, k) == Column(t.rows, k)
  {
    var r := Impute(t, name, stat).value;
    var j := IndexOf(t.columns, name);
    var xs := Numbers(Column(t.rows, j)).value;
    if xs == [] {
      assert forall i :: 0 <= i < |t.rows| ==> Column(t.rows, j)[i].Missing?;
    }
    assert Settled(Column(r.rows, j));
  }

  /** After filling with a present value the column has no missing cell and every other column is as it was. */
  lemma FillConstantFillsAll(t: Table, name: string, v: Cell)
    requires WellFormed(t) && FillConstant(t, name, v).Success? && !v.Missing?
    ensures var r := FillConstant(t, name, v).value;
            var j := IndexOf(t.columns, name);
            && NoMissing(Column(r.rows, j))
            && forall k :: 0 <= k < |t.columns| && k != j ==> Column(r.rows, k) == Column(t.rows, k)
  {
  }

  /** After coercion the column holds integers and every other column is as it was. */
  lemma CoerceIntInts(t: Table, name: string)
    requires WellFormed(t) && CoerceInt(t, name).Success?
    ensures var r := CoerceInt(t, name).value;
            var j := IndexOf(t.columns, name);
            && AllInts(Column(r.rows, j))
            && forall k :: 0 <= k < |t.columns| && k != j ==> Column(r.rows, k) == Column(t.rows, k)
  {
  }

  /** After categorising, the category column agrees with the hours and every other column is as it was. */
  lemma CategorizeCategorizes(t: Table)
    requires WellFormed(t) && Categorize(t).Success?
    ensures var r := Categorize(t).value;
            var h := IndexOf(t.columns, SleepHours);
            var c := IndexOf(r.columns, SleepCategory);
            && h < |t.columns| && |t.columns| <= |r.columns|
            && r.columns[..|t.columns|] == t.columns
            && !HasText(Column(t.rows, h))
            && Categorized(r.rows, c, h)
            && forall k :: 0 <= k < |t.columns| && k != c ==> Column(r.rows, k) == Column(t.rows, k)
  {
  }

  // --------------------------------------------------------------- the whole

  /** A table with the same labels and the same attendance column is past mean imputation too. */
  lemma KeepsAfterMean(a: Table, b: Table)
    requires AfterMean(a) && WellFormed(b) && b.columns == a.columns
    requires var j := IndexOf(a.columns, Attendance); Column(b.rows, j) == Column(a.rows, j)
    ensures AfterMean(b)
  {
  }

  lemma KeepsAfterMedian(a: Table, b: Table)
    requires AfterMedian(a) && WellFormed(b) && b.columns == a.columns
    requires var j := IndexOf(a.columns, Attendance); Column(b.rows, j) == Column(a.rows, j)
    requires var j := IndexOf(a.columns, AssignmentsAvg); Column(b.rows, j) == Column(a.rows, j)
    ensures AfterMedian(b)
  {
    KeepsAfterMean(a, b);
  }

  lemma KeepsAfterUnknown(a: Table, b: Table)
    requires AfterUnknown(a) && WellFormed(b) && b.columns == a.columns
    requires var j := IndexOf(a.columns, Attendance); Column(b.rows, j) == Column(a.rows, j)
    requires var j := IndexOf(a.columns, AssignmentsAvg); Column(b.rows, j) == Column(a.rows, j)
    requires var j := IndexOf(a.columns, ParentEducation); Column(b.rows, j) == Column(a.rows, j)
    ensures AfterUnknown(b)
  {
    KeepsAfterMedian(a, b);
  }

  lemma MeanStep(t0: Table, t1: Table)
    requires WellFormed(t0) && NormalizeHeaders(t0.columns) == t0.columns
    requires Impute(t0, Attendance, Mean) == Success(t1)
    ensures AfterMean(t1)
  {
    ImputeSettles(t0, Attendance, Mean);
  }

  lemma MedianStep(t1: Table, t2: Table)
    requires AfterMean(t1)
    requires Impute(t1, AssignmentsAvg, Median) == Success(t2)
    ensures AfterMedian(t2)
  {
    ImputeSettles(t1, AssignmentsAvg, Median);
    KeepsAfterMean(t1, t2);
  }

  lemma UnknownStep(t2: Table, t3: Table)
    requires AfterMedian(t2)
    requires FillConstant(t2, ParentEducation, Unknown) == Success(t3)
    ensures AfterUnknown(t3)
  {
    FillConstantFillsAll(t2, ParentEducation, Unknown);
    KeepsAfterMedian(t2, t3);
  }

  lemma IntStep(t3: Table, t4: Table)
    requires AfterUnknown(t3)
    requires CoerceInt(t3, StressLevel) == Success(t4)
    ensures AfterInt(t4)
  {
    CoerceIntInts(t3, StressLevel);
    KeepsAfterUnknown(t3, t4);
  }

  /** Categorising keeps every column of the table before it, at the same index. */
  lemma CategoryKeeps(t4: Table, t5: Table, name: string)
    requires WellFormed(t4) && Categorize(t4) == Success(t5)
    requires name in t4.columns && name != SleepCategory
    ensures name in t5.columns && IndexOf(t5.columns, name) == IndexOf(t4.columns, name)
    ensures Column(t5.rows, IndexOf(t5.columns, name)) == Column(t4.rows, IndexOf(t4.columns, name))
  {
    CategorizeCategorizes(t4);
    if SleepCategory !in t4.columns {
      IndexOfPrefix(t4.columns, [SleepCategory], name);
    }
  }

  lemma CategoryStep(t4: Table, t5: Table)
    requires AfterInt(t4)
    requires Categorize(t4) == Success(t5)
    ensures Prepared(t5)
  {
    CategorizeCategorizes(t4);
    CategoryKeeps(t4, t5, Attendance);
    CategoryKeeps(t4, t5, AssignmentsAvg);
    CategoryKeeps(t4, t5, ParentEducation);
    CategoryKeeps(t4, t5, StressLevel);
    CategoryKeeps(t4, t5, SleepHours);
    if SleepCategory !in t4.columns {
      NormalizedAppend(t4.columns);
    }
  }

  /** Dropping duplicates from a prepared table gives a clean one. */
  lemma DropDuplicatesCleans(t: Table)
    requires Prepared(t)
    ensures IsClean(DropDuplicates(t))
  {
    var u := DropDuplicates(t);
    assert forall k :: 0 <= k < |u.rows| ==> u.rows[k] in t.rows;
    SubsetRows(t.rows, u.rows, IndexOf(t.columns, Attendance));
    SubsetRows(t.rows, u.rows, IndexOf(t.columns, AssignmentsAvg));
    SubsetRows(t.rows, u.rows, IndexOf(t.columns, ParentEducation));
    SubsetRows(t.rows, u.rows, IndexOf(t.columns, StressLevel));
    SubsetRows(t.rows, u.rows, IndexOf(t.columns, SleepHours));
    SubsetCategorized(t.rows, u.rows, IndexOf(t.columns, SleepCategory), IndexOf(t.columns, SleepHours));
  }

  /** The output of `Clean`, whenever it succeeds, is a clean table. */
  lemma CleanIsClean(raw: Table)
    requires WellFormed(raw) && Clean(raw).Success?
    ensures IsClean(Clean(raw).value)
  {
    var t0 := NormalizeColumns(raw);
    var t1 := Impute(t0, Attendance, Mean).value;
    var t2 := Impute(t1, AssignmentsAvg, Median).value;
    var t3 := FillConstant(t2, ParentEducation, Unknown).value;
    var t4 := CoerceInt(t3, StressLevel).value;
    var t5 := Categorize(t4).value;
    NormalizeHeadersIdempotent(raw.columns);
    MeanStep(t0, t1);
    MedianStep(t1, t2);
    UnknownStep(t2, t3);
    IntStep(t3, t4);
    CategoryStep(t4, t5);
    DropDuplicatesCleans(t5);
  }

  /** A settled column is left as it is by mean or median imputation. */
  lemma ImputeSettled(t: Table, name: string, stat: Statistic)
    requires WellFormed(t) && name in t.columns
    requires Settled(Column(t.rows, IndexOf(t.columns, name)))
    ensures Impute(t, name, stat) == Success(t)
  {
    var j := IndexOf(t.columns, name);
    var col := Column(t.rows, j);
    var v := FillValue(Numbers(col).value, stat);
    assert FillMissing(col, v) == col;
    SetColumnSame(t.rows, j);
  }

  /** A column without missing cells is left as it is by a constant fill. */
  lemma FillConstantFilled(t: Table, name: string, v: Cell)
    requires WellFormed(t) && name in t.columns
    requires NoMissing(Column(t.rows, IndexOf(t.columns, name)))
    ensures FillConstant(t, name, v) == Success(t)
  {
    var j := IndexOf(t.columns, name);
    assert FillMissing(Column(t.rows, j), v) == Column(t.rows, j);
    SetColumnSame(t.rows, j);
  }

  /** A column of integers is left as it is by `astype(int)`. */
  lemma CoerceIntCoerced(t: Table, name: string)
    requires WellFormed(t) && name in t.columns
    requires AllInts(Column(t.rows, IndexOf(t.columns, name)))
    ensures CoerceInt(t, name) == Success(t)
  {
    var j := IndexOf(t.columns, name);
    assert Ints(Column(t.rows, j)) == Column(t.rows, j);
    SetColumnSame(t.rows, j);
  }

  /** A category column that already agrees with the hours is left as it is. */
  lemma CategorizeCategorized(t: Table)
    requires WellFormed(t) && SleepHours in t.columns && SleepCategory in t.columns
    requires !HasText(Column(t.rows, IndexOf(t.columns, SleepHours)))
    requires Categorized(t.rows, IndexOf(t.columns, SleepCategory), IndexOf(t.columns, SleepHours))
    ensures Categorize(t) == Success(t)
  {
    var jh, jc := IndexOf(t.columns, SleepHours), IndexOf(t.columns, SleepCategory);
    var hours := Column(t.rows, jh);
    var cats := seq(|hours|, i requires 0 <= i < |hours| => CategoryOf(hours[i]));
    assert cats == Column(t.rows, jc);
    SetColumnSame(t.rows, jc);
  }

  /** Cleaning a clean table gives that table back. */
  lemma CleanFixesClean(u: Table)
    requires IsClean(u)
    ensures Clean(u) == Success(u)
  {
    assert NormalizeColumns(u) == u;
    ImputeSettled(u, Attendance, Mean);
    ImputeSettled(u, AssignmentsAvg, Median);
    FillConstantFilled(u, ParentEducation, Unknown);
    CoerceIntCoerced(u, StressLevel);
    CategorizeCategorized(u);
    Dedup.DistinctUnchanged(u.rows);
  }

  /** Cleaning twice gives what cleaning once gives. */
  lemma CleanIdempotent(raw: Table)
    requires WellFormed(raw) && Clean(raw).Success?
    ensures Clean(Clean(raw).value) == Clean(raw)
  {
    CleanIsClean(raw);
    CleanFixesClean(Clean(raw).value);
  }
}
