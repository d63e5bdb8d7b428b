/**
 * The cleaning handler: reads the raw table, cleans it in place step by step,
 * writes it to the cleaned key and answers 200. It has no exception handler,
 * so a step that raises ends the invocation before anything is written.
 */
module CleanStudentCsv {
  import opened Wrappers
  import opened Tables
  import opened Cleaning
  import Frames

  /** The key the cleaned table is written under. */
  const OutputKey := "student_dataset/cleaned/Students_Grading_Dataset.csv"
  const SavedMessage := "Data cleaned and saved to S3!"

  /** The object store bucket: the table stored under each key. */
  class Bucket {
    var objects: map<string, Table>

    constructor (objects: map<string, Table>)
      ensures this.objects == objects
    {
      this.objects := objects;
    }

    /** `put_object`: overwrites whatever the key held. */
    method PutObject(key: string, body: Table)
      modifies this
      ensures objects == old(objects)[key := body]
    {
      objects := objects[key := body];
    }
  }

  datatype Response = Response(statusCode: int, body: string)

  /** The frame went from `before` to `after` as the step function says, or the step raised `err` and left it alone. */
  ghost predicate Applied(before: Table, step: Result<Table, CleanError>, err: Option<CleanError>, after: Table) {
    match step
    case Success(t) => err == None && after == t
    case Failure(e) => err == Some(e) && after == before
  }

  /** The header step: the frame's column labels are replaced by their normal forms. */
  method NormalizeColumnLabels(df: Frames.Frame)
    requires df.Valid()
    modifies df
    ensures df.Valid() && df.Value() == NormalizeColumns(old(df.Value()))
  {
    var _ := df.SetColumns(NormalizeHeaders(df.columns));
  }

  /** Fills the missing cells of a column, in place, with the column's mean or median. */
  method FillWithStatistic(df: Frames.Frame, name: string, stat: Statistic) returns (err: Option<CleanError>)
    requires df.Valid()
    modifies df
    ensures df.Valid() && Applied(old(df.Value()), Impute(old(df.Value()), name, stat), err, df.Value())
  {
    if name !in df.columns {
      return Some(KeyError(name));
    }
    var j := IndexOf(df.columns, name);
    var xs := Numbers(Column(df.rows, j));
    if xs.None? {
      return Some(TypeError(name));
    }
    df.FillNa(j, FillValue(xs.value, stat));
    return None;
  }

  /** Fills the missing cells of a column, in place, with a constant. */
  method FillWithConstant(df: Frames.Frame, name: string, v: Cell) returns (err: Option<CleanError>)
    requires df.Valid()
    modifies df
    ensures df.Valid() && Applied(old(df.Value()), FillConstant(old(df.Value()), name, v), err, df.Value())
  {
    if name !in df.columns {
      return Some(KeyError(name));
    }
    df.FillNa(IndexOf(df.columns, name), v);
    return None;
  }

  /** Replaces a column by its integer conversion. */
  method ConvertToInt(df: Frames.Frame, name: string) returns (err: Option<CleanError>)
    requires df.Valid()
    modifies df
    ensures df.Valid() && Applied(old(df.Value()), CoerceInt(old(df.Value()), name), err, df.Value())
  {
    if name !in df.columns {
      return Some(KeyError(name));
    }
    var col := Column(df.rows, IndexOf(df.columns, name));
    if !Convertible(col) {
      return Some(ValueError(name));
    }
    df.AssignColumn(name, Ints(col));
    return None;
  }

  /** Writes the category column: the sleep hours of each row, binned and labelled. */
  method CategorizeSleep(df: Frames.Frame) returns (err: Option<CleanError>)
    requires df.Valid()
    modifies df
    ensures df.Valid() && Applied(old(df.Value()), Categorize(old(df.Value())), err, df.Value())
  {
    if SleepHours !in df.columns {
      return Some(KeyError(SleepHours));
    }
    var col := Column(df.rows, IndexOf(df.columns, SleepHours));
    if HasText(col) {
      return Some(TypeError(SleepHours));
    }
    df.AssignColumn(SleepCategory, seq(|col|, i requires 0 <= i < |col| => CategoryOf(col[i])));
    return None;
  }

  /**
   * `lambda_handler`: the raw table stands for what `get_object` and
   * `read_csv` produced. On success the cleaned table is stored under the
   * output key and only then is 200 returned; when a step raises, the error
   * escapes and the bucket is untouched.
   */
  method LambdaHandler(raw: Table, bucket: Bucket) returns (res: Result<Response, CleanError>)
    requires WellFormed(raw)
    modifies bucket
    ensures Clean(raw).Success? ==>
              && res == Success(Response(200, SavedMessage))
              && bucket.objects == old(bucket.objects)[OutputKey := Clean(raw).value]
    ensures Clean(raw).Failure? ==>
              res == Failure(Clean(raw).error) && bucket.objects == old(bucket.objects)
  {
    var df := new Frames.Frame(raw);
    NormalizeColumnLabels(df);
    var err := FillWithStatistic(df, Attendance, Mean);
    if err.Some? {
      return Failure(err.value);
    }
    err := FillWithStatistic(df, AssignmentsAvg, Median);
    if err.Some? {
      return Failure(err.value);
    }
    err := FillWithConstant(df, ParentEducation, Unknown);
    if err.Some? {
      return Failure(err.value);
    }
    err := ConvertToInt(df, StressLevel);
    if err.Some? {
      return Failure(err.value);
    }
    err := CategorizeSleep(df);
    if err.Some? {
      return Failure(err.value);
    }
    df.DropDuplicates();
    bucket.PutObject(OutputKey, df.Value());
    return Success(Response(200, SavedMessage));
  }
}
