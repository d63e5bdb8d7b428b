# Student-grading ETL pipeline, modelled in Dafny

The pipeline has two stages.

- **Cleaner** (`lambda_handler`). It reads the raw student CSV and normalises the column labels. It fills missing attendance with the column mean, missing assignment averages with the median, and missing parent education with `"Unknown"`. It coerces the stress level to integers, derives a sleep category with `pd.cut`, drops duplicate rows, and writes the result back to the bucket, answering 200.
- **Loader** (Glue job). It reads the cleaned CSV and renames its 24 columns to the names of the `students_grading` table. It then inserts the rows in batches of 100 with `INSERT … ON CONFLICT (student_id) DO NOTHING`, committing after each batch. On the first failing batch it rolls back and stops, and it closes the cursor and the connection on every path.

How the model represents them:

- **Tables.** A table is its column labels plus row-major rows of cells: `Missing` (NaN), `Num` (float), `Int` or `Text`. Column lookup by label takes the first matching label, as pandas does for a unique label.
- **The cleaner's frame.** The frame is a class whose fields (`columns`, `rows`) the handler's steps change in place. Each step method is specified by a pure step function (`Cleaning.Impute`, `Cleaning.CoerceInt`, …).
- **Exceptions.** Every exception pandas would raise (`KeyError`, `TypeError` from `mean`/`median`/`cut` on text, `ValueError` from `astype(int)`) is a `Failure`. The handler has no `try`, so a failure ends the invocation before `put_object`: the bucket is unchanged and nothing is returned.
- **The database.** The database is a class holding:
  - the committed table, a map from `student_id` to row;
  - the table as the open transaction sees it;
  - whether the connection and the cursor are open;
  - a log of the driver calls made.

  The table the loop commits and the calls it makes are given by the functions `Load` and `Trace` over the batches.

Not modelled as behaviour, but passed in as parameters:

- the database's verdict on each row whose `student_id` is present (`accept`);
- whether the connection succeeds (`reachable`);
- what `get_object` + `read_csv` produced (`raw`, `fetched`).

Points where the code's behaviour is easy to misread:

- **Sleep bins.** `pd.cut` with default arguments uses right-closed bins that exclude the left edge: (0,4], (4,6], (6,8] and (8,12]. So 0 hours gets no category, 4 is `Very Low` and 9 is `High`.
- **No rounding.** The code does not round imputed means and medians.
- **No 500 response.** The handler never returns a 500 response; an exception escapes it.
- **No schema check.** The code does not check the schema or list missing fields. The cleaner fails with pandas' `KeyError` on the first absent column it touches, and the loader's rename only checks the column count.
- **Failed batches.** The loader stops at the first failed batch; later batches are not attempted.

## Model

| member | source | states |
|---|---|---|
| Text.Strip | src/lambda/clean_student_csv.py:17 | `str.strip()`: the infix between leading and trailing Python whitespace, empty for an all-whitespace string; the result is trimmed |
| Text.StripBy | src/lambda/clean_student_csv.py:17 | the infix between the leading and the trailing characters a whitespace class counts, empty when every character is whitespace; the result is trimmed for that class |
| Text.StripByTrimmed | src/lambda/clean_student_csv.py:17 | stripping a string that is already trimmed changes nothing |
| Text.NormalizeHeader | src/lambda/clean_student_csv.py:17 | the normalised label has no surrounding whitespace and no `' '`; each character is the lower-cased character of the stripped label at the same position, a space giving `'_'` |
| Text.NormalizeHeaderIdempotent | src/lambda/clean_student_csv.py:17 | normalising a label twice equals normalising it once |
| Cleaning.NormalizeHeaders | src/lambda/clean_student_csv.py:17 | one label per column, each the normal form of the label at its position, so trimmed and without a space |
| Cleaning.NormalizeHeadersIdempotent | src/lambda/clean_student_csv.py:17 | normalising all labels twice equals normalising them once |
| Cleaning.NormalizeColumns | src/lambda/clean_student_csv.py:17 | the header step replaces the labels by their normal forms and keeps every row |
| Frames.Frame.SetColumns | src/lambda/clean_student_csv.py:17 | assigning `df.columns` succeeds exactly when there is one name per column; the rows never change and a mismatch leaves the labels as they were |
| CleanStudentCsv.NormalizeColumnLabels | src/lambda/clean_student_csv.py:17 | the frame afterwards holds the header step's table |
| Tables.Numbers | src/lambda/clean_student_csv.py:23-24 | the present values of a column, in row order: none (a TypeError) exactly when the column holds text; otherwise one value per present cell, the present cell with p present cells above it giving the value at position p, and empty exactly when every cell is missing |
| Tables.FillMissing | src/lambda/clean_student_csv.py:23-25 | `fillna(v)` on a column: every missing cell becomes `v`, every present cell stays, and with a present `v` no cell is left missing |
| Stats.Mean | src/lambda/clean_student_csv.py:23 | the mean of the present values lies between their minimum and maximum |
| Stats.AverageBetween | src/lambda/clean_student_csv.py:23 | the sum divided by the count lies between any lower and upper bound of the values |
| Stats.Insert | src/lambda/clean_student_csv.py:24 | inserting into a sorted sequence keeps it sorted and adds one element |
| Stats.InsertPermutes | src/lambda/clean_student_csv.py:24 | insertion adds exactly the new value to the multiset of values |
| Stats.Sort | src/lambda/clean_student_csv.py:24 | a sorted permutation of the values |
| Stats.SortCounts | src/lambda/clean_student_csv.py:24 | sorting keeps the number of values at most / at least any bound |
| Stats.MiddleSplits | src/lambda/clean_student_csv.py:24 | the middle of a sorted sequence (the average of the two middle values for an even count) has at least half the values on each side |
| Stats.Median | src/lambda/clean_student_csv.py:24 | the median has at least half the values at or below it and at least half at or above it, and lies between the minimum and the maximum |
| Cleaning.FillValue | src/lambda/clean_student_csv.py:23-24 | the fill value is missing (NaN) exactly when no value is present, otherwise a number between the present values' minimum and maximum |
| Tables.FillColumnFills | src/lambda/clean_student_csv.py:23-25 | filling a column changes only its missing cells, each to the fill value; present cells, other columns and the row count stay |
| Cleaning.Impute | src/lambda/clean_student_csv.py:23-24 | a KeyError for an absent column, a TypeError exactly when the column holds text; otherwise only the column's missing cells change, each to the statistic of the pre-imputation present values |
| Cleaning.FillConstant | src/lambda/clean_student_csv.py:25 | fails exactly when the column is absent; otherwise the missing cells become the constant and nothing else changes |
| Frames.Frame.FillNa | src/lambda/clean_student_csv.py:23-25 | `fillna(inplace=True)` on one column of the frame: the missing cells of that column become the value, nothing else changes |
| CleanStudentCsv.FillWithStatistic | src/lambda/clean_student_csv.py:23-24 | the frame afterwards is the imputation step's table, or unchanged with the step's error |
| CleanStudentCsv.FillWithConstant | src/lambda/clean_student_csv.py:25 | the frame afterwards is the constant fill's table, or unchanged with its KeyError |
| Cleaning.Truncate | src/lambda/clean_student_csv.py:28 | `int()` of a float truncates toward zero |
| Cleaning.IntOf | src/lambda/clean_student_csv.py:28 | one cell under `astype(int)`: NaN raises, an integer stays itself, a float truncates toward zero, and text converts exactly when, stripped of the whitespace `int()` skips (which excludes U+001C..U+001F), it is an optional sign and digits |
| Text.ParseSigned | src/lambda/clean_student_csv.py:28 | accepts exactly an optional sign followed by at least one ASCII digit, and its value is the sign times the digits' decimal value |
| Text.ParseInt | src/lambda/clean_student_csv.py:28 | `int(str)` succeeds exactly when the text, stripped of ASCII `\t\n\v\f\r`, `' '` and non-ASCII whitespace but not of U+001C..U+001F, is an optional sign and at least one digit; the value is that sign times the digits' decimal value |
| Text.LeadingZeroValue | src/lambda/clean_student_csv.py:28 | a leading `0` does not change the value of a digit run |
| Text.ParseIntLeadingZeros | src/lambda/clean_student_csv.py:28 | `int("007") == 7` |
| Text.ParseIntPlus | src/lambda/clean_student_csv.py:28 | `int("+5") == 5` |
| Text.ParseIntSpaces | src/lambda/clean_student_csv.py:28 | `int(" 5 ") == 5`: surrounding whitespace is ignored |
| Text.ParseIntWideSpace | src/lambda/clean_student_csv.py:28 | `int("\xa05") == 5`: non-ASCII whitespace is skipped |
| Text.ParseIntSeparator | src/lambda/clean_student_csv.py:28 | `"\x1c5".strip() == "5"`, yet `int("\x1c5")` raises `ValueError` |
| Text.ParseIntMinus | src/lambda/clean_student_csv.py:28 | `int("-12") == -12` |
| Text.ParseIntRejects | src/lambda/clean_student_csv.py:28 | `int("5.0")` and `int("")` raise `ValueError` |
| Text.ParseIntDecimal | src/lambda/clean_student_csv.py:28 | `int(str(n)) == n` for every integer |
| Cleaning.CoerceInt | src/lambda/clean_student_csv.py:28 | all or nothing: succeeds exactly when every cell converts, each cell then becoming its integer with every other cell unchanged; otherwise a ValueError (KeyError for an absent column) |
| Tables.Assign | src/lambda/clean_student_csv.py:28-33 | `df[name] = col` overwrites the column in place or appends it; the column then reads back as `col` and every other cell stays |
| Frames.Frame.AssignColumn | src/lambda/clean_student_csv.py:28-33 | the frame afterwards holds the assigned table |
| CleanStudentCsv.ConvertToInt | src/lambda/clean_student_csv.py:28 | the frame afterwards is the coercion's table, or unchanged with its error |
| SleepBins.EdgesBelow | src/lambda/clean_student_csv.py:31-33 | the left search position on increasing edges: every edge before it is below the value, every edge from it on is not |
| SleepBins.Bin | src/lambda/clean_student_csv.py:31-33 | a bin exactly for hours in (0,12], and bin k holds exactly the hours in (edge k, edge k+1] |
| SleepBins.Category | src/lambda/clean_student_csv.py:31-33 | (0,4] → Very Low, (4,6] → Low, (6,8] → Medium, (8,12] → High, and no category exactly outside (0,12] |
| Cleaning.CategoryOf | src/lambda/clean_student_csv.py:31-33 | one hours cell: the label of its hours' bin for a number in (0,12], missing for NaN, text and every other number |
| SleepBins.CategoryExamples | src/lambda/clean_student_csv.py:31-33 | 4 → Very Low, 4.01 → Low, 8 → Medium, 9 → High, 12 → High, and 0, negative hours and hours above 12 → missing |
| SleepBins.BinMonotone | src/lambda/clean_student_csv.py:31-33 | more sleep never gets a lower category |
| Cleaning.Categorize | src/lambda/clean_student_csv.py:31-33 | a KeyError without the hours column, a TypeError exactly when it holds text; otherwise the category column (overwritten or appended) holds each row's category and every other column is unchanged |
| CleanStudentCsv.CategorizeSleep | src/lambda/clean_student_csv.py:31-33 | the frame afterwards is the binning step's table, or unchanged with its error |
| Dedup.DropDuplicates | src/lambda/clean_student_csv.py:36 | every input row is kept at least once, every kept row comes from the input, no two kept rows are equal |
| Dedup.FirstPositions | src/lambda/clean_student_csv.py:36 | the first-occurrence positions, in increasing order, and all of them |
| Dedup.KeepsFirstOccurrences | src/lambda/clean_student_csv.py:36 | the k-th kept row is the row at the k-th first-occurrence position: an order-preserving subsequence of first occurrences |
| Dedup.DistinctUnchanged | src/lambda/clean_student_csv.py:36 | rows without duplicates are left as they are |
| Dedup.DropDuplicatesIdempotent | src/lambda/clean_student_csv.py:36 | dropping duplicates twice equals dropping them once |
| Cleaning.DropDuplicates | src/lambda/clean_student_csv.py:36 | deduplication keeps the labels, every input row appears, every kept row comes from the input, no two rows are equal, and there are no more rows than before |
| Frames.Frame.DropDuplicates | src/lambda/clean_student_csv.py:36 | the frame's rows afterwards are the deduplicated rows |
| Cleaning.Clean | src/lambda/clean_student_csv.py:17-36 | the handler's steps composed in its order, stopping at the first step that raises; a success is well formed, has no more rows than the input and no two equal rows |
| CleaningProperties.ImputeSettles | src/lambda/clean_student_csv.py:23-24 | after imputation the column holds no text and is either all missing or has no missing cell; other columns are unchanged |
| CleaningProperties.FillConstantFillsAll | src/lambda/clean_student_csv.py:25 | after the constant fill the column has no missing cell; other columns are unchanged |
| CleaningProperties.CoerceIntInts | src/lambda/clean_student_csv.py:28 | after coercion the column holds only integers; other columns are unchanged |
| CleaningProperties.CategorizeCategorizes | src/lambda/clean_student_csv.py:31-33 | after binning, every row's category is the category of its hours, and the earlier columns keep their place and content |
| CleaningProperties.DropDuplicatesCleans | src/lambda/clean_student_csv.py:36 | dropping duplicates from a prepared table keeps every column property and makes the rows distinct |
| CleaningProperties.CleanIsClean | src/lambda/clean_student_csv.py:17-36 | whenever cleaning succeeds, the labels are normalised and every touched column is present. The mean- and median-filled columns have no text and are all missing or without a missing cell. No education level is missing, stress levels are integers, every category matches its hours, and no two rows are equal |
| CleaningProperties.ImputeSettled | src/lambda/clean_student_csv.py:23-24 | imputing a settled column changes nothing |
| CleaningProperties.FillConstantFilled | src/lambda/clean_student_csv.py:25 | a constant fill of a column without missing cells changes nothing |
| CleaningProperties.CoerceIntCoerced | src/lambda/clean_student_csv.py:28 | coercing an integer column changes nothing |
| CleaningProperties.CategorizeCategorized | src/lambda/clean_student_csv.py:31-33 | re-binning a table whose categories already match its hours changes nothing |
| CleaningProperties.CleanFixesClean | src/lambda/clean_student_csv.py:17-36 | cleaning a clean table gives it back |
| CleaningProperties.CleanIdempotent | src/lambda/clean_student_csv.py:17-36 | cleaning the handler's output again gives the same output |
| CleanStudentCsv.Bucket.PutObject | src/lambda/clean_student_csv.py:41 | `put_object` stores the table under the key and changes no other key |
| CleanStudentCsv.LambdaHandler | src/lambda/clean_student_csv.py:11-43 | when every step succeeds, the cleaned table is stored under the output key and 200 with the saved message is returned; when a step raises, that error escapes and the bucket is unchanged |
| S3ToPostgres.ReadCsvFromS3 | src/glue/s3-to-postgres-glue.py:31-51 | a frame comes back exactly when the read succeeded and it has 24 columns; it then has the table's column names in order and its rows untouched; every other case gives None |
| Batching.Batches | src/glue/s3-to-postgres-glue.py:83-88 | ceil(n/100) batches, each non-empty and at most 100 long, all but the last exactly 100 |
| Batching.BatchesPartition | src/glue/s3-to-postgres-glue.py:83-88 | the batches concatenated give the data back in order |
| Batching.BatchAt | src/glue/s3-to-postgres-glue.py:87-88 | batch k is the slice `data[100k : 100k+100]` the loop cuts at offset 100k |
| Upsert.InsertRow | src/glue/s3-to-postgres-glue.py:79 | the statement on one row: its key is stored afterwards, with the old row if it was there and with this row otherwise; no other key appears or disappears and no stored row changes |
| Upsert.InsertAll | src/glue/s3-to-postgres-glue.py:79-88 | the statement once per row, in order: stored rows never change and every row's key is stored afterwards |
| Upsert.FirstWithKey | src/glue/s3-to-postgres-glue.py:79 | the first row carrying a key: a row of the input with that key, and every row before it has another key |
| Upsert.InsertAllSkips | src/glue/s3-to-postgres-glue.py:79 | `ON CONFLICT DO NOTHING` over rows: existing rows never change, the keys afterwards are the old keys plus the rows' keys, and a new key holds the first row that carried it (later rows with that key, in the same batch too, are skipped) |
| Upsert.InsertAllAppend | src/glue/s3-to-postgres-glue.py:79 | inserting two row sequences one after the other equals inserting their concatenation |
| Upsert.InsertAllPresent | src/glue/s3-to-postgres-glue.py:79 | rows whose keys are all present already change nothing |
| Upsert.InsertAllIdempotent | src/glue/s3-to-postgres-glue.py:79 | inserting the same rows twice equals inserting them once |
| S3ToPostgres.FirstRejected | src/glue/s3-to-postgres-glue.py:88 | the position of the first row the database rejects: every row before it is accepted |
| S3ToPostgres.FailedBatch | src/glue/s3-to-postgres-glue.py:87-95 | the first batch with a rejected row: every batch before it is accepted |
| S3ToPostgres.LoadKeepsStored | src/glue/s3-to-postgres-glue.py:79-95 | `Load`, the committed table after the loop, never changes or removes a row that was already stored |
| S3ToPostgres.TraceLength | src/glue/s3-to-postgres-glue.py:87-95 | `Trace`, the calls of the loop, has two calls per batch up to and including the failing one, an execute at every even position followed by its commit or rollback |
| S3ToPostgres.LoadNoMissingKey | src/glue/s3-to-postgres-glue.py:79-88 | with an integer `student_id` key, which refuses the `'NaN'::float` a missing id is sent as, no load stores a row under a missing key |
| S3ToPostgres.LoadStep | src/glue/s3-to-postgres-glue.py:87-94 | one turn of the loop: an accepted batch is added and committed, a rejected one rolls back and ends the loop |
| S3ToPostgres.LoadCommitsPrefix | src/glue/s3-to-postgres-glue.py:87-95 | the committed table holds exactly the rows of the batches before the first failing one |
| S3ToPostgres.TraceExecuted | src/glue/s3-to-postgres-glue.py:87-95 | the batches executed are those before the failing one and the failing one itself; later batches are never attempted |
| S3ToPostgres.TraceCommits | src/glue/s3-to-postgres-glue.py:87-89 | there is one commit per batch before the failing one |
| S3ToPostgres.TraceRollsBack | src/glue/s3-to-postgres-glue.py:93-94 | there is a rollback exactly when a batch fails, and it is the loop's last call |
| S3ToPostgres.TraceStopsAtFailure | src/glue/s3-to-postgres-glue.py:87-95 | the combination of the three trace properties above |
| S3ToPostgres.LoadAccepted | src/glue/s3-to-postgres-glue.py:87-89 | when every row is accepted, the load inserts all the data in order |
| S3ToPostgres.LoadIdempotent | src/glue/s3-to-postgres-glue.py:79-89 | loading the same data a second time leaves the table as the first load did |
| S3ToPostgres.Database.Connect | src/glue/s3-to-postgres-glue.py:54-61 | the connection opens exactly when the server is reachable; nothing else changes |
| S3ToPostgres.Database.OpenCursor | src/glue/s3-to-postgres-glue.py:69 | a cursor is opened; no table changes |
| S3ToPostgres.Database.ExecuteMany | src/glue/s3-to-postgres-glue.py:88 | runs the insert row by row in the open transaction up to the first rejected row (a missing `student_id`, sent as `'NaN'::float`, or one `accept` refuses); raises exactly when a row is rejected; commits nothing |
| S3ToPostgres.Database.Commit | src/glue/s3-to-postgres-glue.py:89 | the transaction's table becomes the committed table |
| S3ToPostgres.Database.Rollback | src/glue/s3-to-postgres-glue.py:94 | uncommitted inserts are discarded; the committed table stays |
| S3ToPostgres.Database.CloseCursor | src/glue/s3-to-postgres-glue.py:97 | the cursor is closed; no table changes |
| S3ToPostgres.Database.Close | src/glue/s3-to-postgres-glue.py:98 | the connection is closed; the committed table stays |
| S3ToPostgres.RunBatch | src/glue/s3-to-postgres-glue.py:88-94 | an accepted batch is inserted with skip-on-conflict and committed; a rejected batch is rolled back and leaves the committed table as it was |
| S3ToPostgres.InsertBatches | src/glue/s3-to-postgres-glue.py:86-95 | the loop's committed table is `Load` over the batches and its calls are `Trace` over them |
| S3ToPostgres.InsertDataIntoPostgres | src/glue/s3-to-postgres-glue.py:64-98 | without a connection, nothing changes; otherwise the committed table is `Load`, the calls are `Trace`, and then the cursor and the connection are closed, on every path |
| S3ToPostgres.RunJob | src/glue/s3-to-postgres-glue.py:101-103 | no insert is attempted when the read gives None or the connection fails; otherwise the whole load of the read frame's rows runs |

## Left out

- S3 access is not modelled: the client, `get_object` and `put_object`'s transport. The table read is a parameter, and the bucket is a map from key to table. These calls are foreign I/O.
- CSV parsing and serialisation (`pd.read_csv`, `to_csv`, `df.to_numpy()`) are not modelled; the model works on parsed tables. They are library internals.
- Other outside calls are not modelled: the psycopg2 connection handshake, `getResolvedOptions`, and the `pip install` subprocess. A connection's success is the `reachable` parameter. Whether the database accepts a row (a constraint or type error that makes `executemany` raise) is the `accept` parameter.
- `conn.commit()` itself raising is not modelled. Only `executemany` fails in the model.
- Exceptions other than the ones listed above are not modelled, for example in `conn.cursor()`.
- All `print` output is not modelled, including the progress count `i + batch_size`. That count over-reports only when the last batch is short, i.e. when `len(data)` is not a multiple of 100. It also counts rows that `ON CONFLICT DO NOTHING` skipped as inserted.
- Line 1 of src/glue/s3-to-postgres-glue.py is prose, not Python. The model treats the script as starting at line 3.
- Floating point is not modelled: cells hold exact reals and integers. Means and medians are exact, and NaN is the `Missing` cell.
- `astype(int)` overflow of 64-bit integers is not modelled.
- Lower-casing maps only ASCII letters; Unicode case mapping beyond ASCII is not modelled.
- Text.ParseInt: `int()` of text accepts only ASCII digits in the model. Underscore separators and other Unicode digits are not modelled.
- pandas column dtypes are not modelled: a column may mix `Num` and `Int` cells. `drop_duplicates` then treats `Num(4.0)` and `Int(4)` as different, whereas a real column has one dtype.
- Duplicate column labels are not modelled: a label lookup takes the first column with that label.
- The chained-assignment caveat of `df[col].fillna(..., inplace=True)` is not modelled. Under pandas copy-on-write that fills a copy; the model fills the frame's column, as the code intends.
- Upsert.Key: a row without cells has the missing key and is rejected like a row whose `student_id` is NaN. `data` rows always have 24 cells, so this case does not arise in the loader.
- Upsert.HasKey: the `students_grading` table definition is not part of this model. `df.to_numpy()` turns a missing `student_id` into a float NaN, which psycopg2 sends as `'NaN'::float`. The model assumes the key column refuses that value, as an integer `student_id` does ("integer out of range"), so `executemany` raises at such a row. With a text key, the first NaN row would be stored under the key `'NaN'` and later NaN rows skipped as conflicts; that case is not modelled.
