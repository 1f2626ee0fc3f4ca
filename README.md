# analyses-api, modelled in Dafny

analyses-api is a small Go web service. A user stores a CSV file of numbers
under their username, and the service runs an ordinary least-squares
regression over it. This project models the logic inside that service:

- **CSV parsing** (`util/csv.go`, module `Csv`). `ParseCSVToFloatSlice` and `appendFloat` are imperative methods specified declaratively: `appendFloat` against `NumericPrefix` and `Values` (the longest run of fields that parse, and their values), and `ParseCSVToFloatSlice` against `Expected`, an account of what the whole parse returns.
- **The reader** (module `CsvReader`). The part of `encoding/csv` the parser depends on: lines, empty lines and field splitting. It is defined only for text with no quotes and no carriage returns.
- **Test-data builders** (`util/rand.go`, module `Rand`). The random source is a parameter. The module includes the round trip from `RandomCSV` through the reader and the parser.
- **Authorization check** (`api/middleware.go`, module `Middleware`). It models the header check as a verdict: abort with a status and message, or proceed with the payload. `strings.Fields`, `strings.TrimSpace` and `strings.ToLower` are modelled in module `Strings`.
- **Matrix helpers** (`stats-analyses/util.go`, module `StatsUtil`). `ones`, `sum`, `mean` and `variance` are methods with loops.
- **Linear regression** (`stats-analyses/linear_regression.go`, module `Regression`). It works over real numbers, on the gonum operations it uses (module `Matrices`). Inversion and the square root are parameters.
- **Upload endpoint** (`api/files.go`, module `Files`). `Validate` is the handler's ladder of checks, in their order. `FileStore` is a class holding the username-keyed files table. Its methods `Store` and `UploadFile` create or replace a user's row, as the handler does.

Floats are real numbers. The residual variance and the values computed from
it are a `Float`, which is a real number, `+Inf`, `-Inf` or `NaN`, because the
code divides by `r - c - 2` without checking it. A t statistic that would be
NaN or infinite in Go is `None`. strconv.ParseFloat is a parameter
`parse: string -> Option<real>`.

The CSV tokenizer appears in two forms:
- `ParseCsvToFloatSlice` takes a sequence of what successive `Read` calls return. The end of that sequence is `io.EOF`.
- `CsvReader.Read` models a reader for the text that `RandomCSV` produces.

Token verification, the clock, the binary encoding with base64, and
database faults are all parameters.

## Model

| member | source | states |
|---|---|---|
| Csv.AppendFloat | util/csv.go:61-70 | the result is the input slice followed by the numbers of the fields that parse before the first one that does not; no error exactly when every field parses; otherwise the error names the first bad field after trimming |
| Csv.NumericPrefix | util/csv.go:62-66 | the count of leading fields that ParseFloat accepts after TrimSpace; the next field, if any, is rejected |
| Csv.Field | util/csv.go:63 | a field's number is strconv.ParseFloat of the field with its surrounding white space trimmed |
| Csv.Values | util/csv.go:62-68 | one number per field, in field order, each the parse of the trimmed field |
| Csv.Counted | util/csv.go:31-33 | the records counted as rows are the non-empty ones; there are never more of them than records read |
| Csv.RecordError | util/csv.go:35-49 | a counted record raises no error exactly when the reader flagged none, its length equals the first record's and all its fields parse |
| Csv.FirstFailure | util/csv.go:23-52 | every counted record before the returned index passes the checks and the one at it does not |
| Csv.Expected | util/csv.go:18-54 | on any error the result is zero rows, zero columns and no data; on success rows is the number of non-empty records, cols is the first record's length and the data has rows * cols numbers |
| Csv.ParseCsvToFloatSlice | util/csv.go:18-54 | the loop returns exactly what Expected describes for the records read |
| Csv.FlattenLength | util/csv.go:39-51 | records that all pass at width w contribute exactly (number of records) * w numbers |
| Csv.FlattenIndex | util/csv.go:61-69 | field j of record i of accepted records sits at index i * w + j of the data |
| Csv.RowMajor | util/csv.go:11-15 | on success, field j of the i-th counted record is the number at index i * cols + j |
| Csv.SucceedsIff | util/csv.go:35-49 | the parse succeeds exactly when every counted record is unflagged, has the first record's length and parses |
| Csv.OnlyEmptyRecords | util/csv.go:24-33 | input with no records, or with empty records only, gives zero rows, zero columns, no data and no error |
| Csv.EmptyRecordSkipped | util/csv.go:31-37 | an empty record changes nothing wherever it occurs, even when the reader reported an error with it |
| Csv.FailsAt | util/csv.go:35-49 | when the records before it were accepted, the parse returns zero rows, zero columns, no data and the first rejected record's error |
| Csv.Rejected | util/csv.go:35-49 | the loop's early returns: a record read after accepted records that fails the checks against the width in force ends the parse with that record's error and nothing else |
| Csv.SucceedsIffAccepted | util/csv.go:35-49 | the parse reports no error exactly when every counted record passes the checks against the first record's width |
| CsvReader.SplitOn | util/csv.go:19-24 | splitting yields at least one piece and no piece holds the separator |
| CsvReader.JoinSplit | util/csv.go:19-24 | joining the pieces of a split restores the text |
| CsvReader.SplitJoin | util/csv.go:19-24 | splitting pieces that were joined, none holding the separator, restores the pieces |
| CsvReader.LinesOfTerminated | util/csv.go:19-24 | newline-terminated lines without newlines are read back as exactly those lines |
| CsvReader.Records | util/csv.go:24 | one record per non-empty line, in order, each the line split at its commas and so holding at least one field; empty lines give no record |
| CsvReader.Read | util/csv.go:24-33 | for text without quotes or carriage returns, the reader never hands back an empty record: empty lines are skipped |
| CsvReader.NoRowLengthMismatch | util/csv.go:39-44 | for text without quotes or carriage returns read through encoding/csv's reader, a ragged row is reported as a read error, so the parser's own length check never fires |
| Rand.Wrap | util/rand.go:27-29 | int64 arithmetic wraps modulo 2^64 and leaves in-range values alone |
| Rand.RandomInt | util/rand.go:27-29 | when min <= max and the span fits in int64, the result lies in [min, max] given that Int63n(n) lies in [0, n) |
| Rand.RandomIntPanics | util/rand.go:27-29 | Int63n panics exactly when max < min without wrap-around or when [min, max] holds 2^63 or more values |
| Rand.RandomString | util/rand.go:32-40 | n letters (none for n <= 0), letter i being the alphabet letter the i-th draw picks; every letter is from the 25-letter alphabet, which lacks 'w' |
| Rand.RandomUser | util/rand.go:43-45 | six alphabet letters |
| Rand.RandomEmail | util/rand.go:48-50 | six alphabet letters followed by "@email.com" |
| Rand.RandomPassword | util/rand.go:53-55 | eight alphabet letters |
| Rand.RandomCsv | util/rand.go:59-76 | the text is each row's cells joined by commas, each row followed by a newline; with zero rows it is empty |
| Rand.CsvText | util/rand.go:59-76 | cells without quotes or carriage returns give a text without them, which is the only kind CsvReader.Read takes |
| Rand.CsvLines | util/rand.go:59-76 | the generated text has one line per row, and each line splits at its commas into exactly that row's cells |
| Rand.ReadCsvText | util/csv_test.go:13-17 | the reader returns one unflagged record per generated row, holding that row's cells |
| Rand.RandomCsvParses | util/csv_test.go:10-22 | parsing RandomCSV's text gives no error, as many rows as generated, the generated column count and rows * cols numbers |
| Rand.RandomCsvRowMajor | util/csv_test.go:13-21 | the number parsed from generated cell (i, j) is at index i * cols + j of the data |
| Rand.SampleCsvParses | util/rand.go:84-91 | the 10 x 10 sample RandomData builds parses into a 10 x 10 matrix of 100 numbers |
| StatsUtil.Ones | stats-analyses/util.go:9-16 | a rows x cols matrix whose every entry is 1 |
| StatsUtil.Sum | stats-analyses/util.go:19-27 | the left-to-right sum of the arguments, 0 for none |
| StatsUtil.TotalAppend | stats-analyses/util.go:19-27 | sum(xs + [x]) == sum(xs) + x |
| StatsUtil.TotalConcat | stats-analyses/util.go:19-27 | the sum of a concatenation is the sum of the sums |
| StatsUtil.TotalNonNegative | stats-analyses/util.go:19-27 | a sum of non-negative numbers is non-negative |
| StatsUtil.MeanOf | stats-analyses/util.go:37 | stat.Mean of a column: defined exactly for a non-empty column, and then the mean times the count is the column's sum |
| StatsUtil.VarianceOf | stats-analyses/util.go:51 | stat.Variance of a column: defined exactly for two values or more, and then the variance times n - 1 is the sum of the squared deviations from the mean |
| StatsUtil.Mean | stats-analyses/util.go:30-41 | one mean per column, in column order, each the mean of that column |
| StatsUtil.Variance | stats-analyses/util.go:44-55 | one sample variance per column, in column order, each the variance of that column |
| StatsUtil.MeanOfConstant | stats-analyses/util.go:37 | the mean of equal values is that value |
| StatsUtil.VarianceOfConstant | stats-analyses/util.go:51 | the variance of equal values is zero |
| StatsUtil.VarianceNonNegative | stats-analyses/util.go:51 | a variance of two or more values is defined and never negative |
| StatsUtil.OnesStatistics | stats-analyses/util.go:9-16 | every column of a ones matrix has mean 1 and, with two rows or more, variance 0 |
| Matrices.TotalConstant | stats-analyses/linear_regression.go:55 | n copies of c add up to n * c |
| Matrices.FromRowMajor | stats-analyses/util.go:15 | mat.NewDense over rows * cols numbers gives a rows x cols matrix |
| Matrices.Transpose | stats-analyses/linear_regression.go:26-27 | the transpose has the dimensions swapped |
| Matrices.TransposeTwice | stats-analyses/linear_regression.go:27-30 | transposing twice gives the matrix back, so X.T() of x.T() is x |
| Matrices.Slice | stats-analyses/linear_regression.go:26-28 | a view of rows i..k and columns j..l has k - i rows and l - j columns |
| Matrices.Col | stats-analyses/util.go:36 | mat.Col: column j of the matrix, top to bottom, one entry per row |
| Matrices.Stack | stats-analyses/linear_regression.go:26 | stacking puts the rows of b under the rows of a |
| Matrices.Sub | stats-analyses/linear_regression.go:47 | the entry-wise difference of two matrices of one shape has that shape |
| Matrices.Square | stats-analyses/linear_regression.go:48-53 | Apply with math.Pow(elem, 2): every entry squared, same shape |
| Matrices.SumEntries | stats-analyses/linear_regression.go:55 | mat.Sum: all entries added row after row; with Square it gives a non-negative total (`Regression.SquaresNonNegative`) |
| Matrices.DiagView | stats-analyses/linear_regression.go:64 | the diagonal of a square matrix as a diagonal matrix of the same size |
| Matrices.Mul | stats-analyses/linear_regression.go:30 | the product of an m x n and an n x p matrix is m x p |
| Matrices.MulAssoc | stats-analyses/linear_regression.go:36-37 | matrix multiplication is associative |
| Matrices.MulIdentity | stats-analyses/linear_regression.go:31-37 | the identity times a matrix is that matrix |
| Matrices.DotSingle | stats-analyses/linear_regression.go:66 | a dot product against a vector with one non-zero entry picks out that entry |
| Matrices.DiagTimesOnes | stats-analyses/linear_regression.go:64-66 | DiagView(a) times a column of ones is the diagonal of a |
| Regression.Design | stats-analyses/linear_regression.go:25-27 | X is r x c; column 0 is all ones and column k >= 1 is input column k - 1 |
| Regression.Response | stats-analyses/linear_regression.go:28 | Y is the r x 1 last column of the input |
| Regression.Gram | stats-analyses/linear_regression.go:30 | X^T X, the matrix that is inverted, is c x c |
| Regression.Coefficients | stats-analyses/linear_regression.go:36-37 | beta = inv(X^T X) X^T Y has one entry per column of X, the intercept first |
| Regression.Residual | stats-analyses/linear_regression.go:46-47 | the residual Y - X beta has Y's shape |
| Regression.SigmaHat | stats-analyses/linear_regression.go:55 | the residual variance times r - c - 2 is the sum of squared residuals when that divisor is not zero; with a zero divisor it is +Inf when some residual is non-zero and NaN when all are zero, never -Inf |
| Regression.SquaresNonNegative | stats-analyses/linear_regression.go:48-55 | the sum of squared residuals is never negative |
| Regression.Times | stats-analyses/linear_regression.go:57-62 | sigma * inv[k][k] in float64: the real product for a finite sigma; for +Inf, +Inf exactly when the entry is positive and -Inf exactly when it is negative |
| Regression.Root | stats-analyses/linear_regression.go:67-72 | math.Sqrt gives a finite root exactly for finite non-negative values, and that root is the non-negative one; +Inf exactly for +Inf |
| Regression.Quotient | stats-analyses/linear_regression.go:74 | DivElem on one entry is finite exactly when the root is neither NaN nor zero; an infinite root gives 0 and a finite non-zero root gives the quotient |
| Regression.TStatistics | stats-analyses/linear_regression.go:57-74 | one t statistic per coefficient |
| Regression.TStatisticEntry | stats-analyses/linear_regression.go:57-74 | t_k is beta_k divided by the root of sigma * inv[k][k]: the DiagView product picks out entry k of the diagonal |
| Regression.LinearRegression | stats-analyses/linear_regression.go:21-80 | the only error is a failed inversion of X^T X; otherwise the coefficients inv(X^T X) X^T Y (c of them) and the t statistics computed from them and the residual variance, whatever r - c - 2 is |
| Regression.TStatisticFormula | stats-analyses/linear_regression.go:57-74 | for a finite sigma with sigma * inv[k][k] > 0, the root is positive and t_k = beta_k / sqrt(sigma * inv[k][k]) |
| Regression.TStatisticNonFinite | stats-analyses/linear_regression.go:67-74 | for a finite sigma with sigma * inv[k][k] <= 0, t_k is not finite: NaN for a negative variance, a division by zero for a zero one |
| Regression.NonFiniteVariance | stats-analyses/linear_regression.go:55-74 | a +Inf sigma gives t_k = 0 where inv[k][k] > 0 and a non-finite t_k elsewhere; a NaN sigma makes every t_k non-finite |
| Regression.ZeroDivisor | stats-analyses/linear_regression.go:55 | with exactly c + 2 rows the unchecked divisor is zero: no error, the coefficients are returned, and t_k is 0 where some residual is non-zero and inv[k][k] > 0, and non-finite everywhere else |
| Regression.EqualPredictorColumns | stats-analyses/linear_regression.go:26-35 | two equal predictor columns make X^T X singular, so the inversion fails and the regression returns its error |
| Regression.ExactFit | stats-analyses/linear_regression.go:30-37 | when Y = X b and the inverse really inverts X^T X, the coefficients are exactly b |
| Regression.PerfectResidual | stats-analyses/linear_regression.go:46-55 | coefficients that reproduce Y leave all residuals zero, a zero residual variance when r - c - 2 is not zero, and 0 / 0 = NaN when it is |
| Middleware.Authorize | api/middleware.go:26-59 | every refusal is 401; a request proceeds exactly when the header has at least two fields, the first lower-cases to "bearer" and the second verifies; the payload is then the verifier's and is stored under "authorization_payload" |
| Middleware.SameLeadingFields | api/middleware.go:35-52 | the verdict depends only on whether the header is empty, the lower-cased first field and the second field |
| Middleware.MissingHeader | api/middleware.go:28-33 | an absent or empty header aborts with 401 and "Authorization header is not provided" |
| Middleware.BlankHeader | api/middleware.go:35-40 | a header of white space only aborts with 401 and "Invalid authorization header!" |
| Middleware.SingleField | api/middleware.go:35-40 | a header of a single field aborts with 401 and "Invalid authorization header!" |
| Middleware.UnsupportedScheme | api/middleware.go:53-56 | a header "<scheme> <token>" whose scheme does not lower-case to "bearer" aborts with 401 and a message naming the lower-cased scheme |
| Middleware.RejectedToken | api/middleware.go:46-50 | a header "<scheme> <token>" with a bearer scheme in any case whose token fails verification aborts with 401 and the verifier's message |
| Middleware.BearerVerdict | api/middleware.go:43-52 | with a bearer scheme, the verdict is the verifier's answer on the second field |
| Middleware.BearerHeader | api/middleware.go:42-52 | "Bearer <token>" proceeds with the payload exactly when the token verifies, and otherwise aborts with the verifier's message |
| Middleware.SchemeCaseInsensitive | api/middleware.go:42-44 | two spellings of the scheme that lower-case alike, such as "Bearer" and "BEARER", get the same verdict |
| Middleware.ExtraFieldsIgnored | api/middleware.go:45 | in a header "<scheme> <token>", anything appended after further white space changes nothing: the token is exactly the second field |
| Strings.TrimSpace | util/csv.go:63 | strings.TrimSpace: the right end trimmed after the left one; what that leaves is stated by TrimSpaceTrims |
| Strings.TrimSpaceTrims | util/csv.go:63 | TrimSpace turns a blank string into the empty one and keeps exactly the characters between the leading and the trailing white space of any other; what it leaves has no white space at either end |
| Strings.TrimLeftDrops | util/csv.go:63 | trimming the left end drops exactly the leading white space |
| Strings.TrimRightDrops | util/csv.go:63 | trimming the right end drops exactly the trailing white space |
| Strings.LeadingAreSpaces | util/csv.go:63 | the leading characters counted as white space all are |
| Strings.TrailingAreSpaces | util/csv.go:63 | the trailing characters counted as white space all are |
| Strings.Fields | api/middleware.go:35 | strings.Fields: after the leading white space, the first word, then the fields of the rest; what that gives is stated by the Fields lemmas below |
| Strings.FieldsAreFields | api/middleware.go:35 | every field strings.Fields returns is non-empty and free of white space |
| Strings.FieldsKeepNonSpace | api/middleware.go:35 | the fields hold exactly the non-white-space characters of the header, in order |
| Strings.FieldsEmptyIffBlank | api/middleware.go:35 | a string has no fields exactly when it is all white space |
| Strings.FieldsSplitAtSpace | api/middleware.go:35 | fields never straddle a white-space character |
| Strings.FieldsOfField | api/middleware.go:35 | a run of non-white-space characters is its own only field |
| Strings.FieldsAfterWord | api/middleware.go:35 | a word followed by white space is the first field of the whole |
| Strings.TwoLeadingFields | api/middleware.go:35 | two words separated and followed by white space are the first two fields, whatever comes after them |
| Strings.ToLower | api/middleware.go:42 | lower-casing keeps the length and maps each character by itself |
| Files.Status | api/files.go:90-186 | 400 for a missing file or username, 413 for an oversize file, 401 for a foreign username, 500 for every other refusal |
| Files.Validate | api/files.go:90-146 | a request passes exactly when the file is present, within 10 MiB and opens; the username is present and is the token's; the content parses into a non-empty matrix; and the matrix encodes; the accepted username and encoding are then those |
| Files.NoFileIsBadRequest | api/files.go:90-96 | without a file the answer is 400, whatever else the request holds |
| Files.OversizeFirst | api/files.go:97-101 | a file over 10 << 20 bytes is refused with 413 before anything else is consulted, and one of exactly that size is not |
| Files.NoUsernameIsBadRequest | api/files.go:103-109 | a file within the limit without a username gives 400 |
| Files.ForeignUsernameUnauthorized | api/files.go:119-124 | a username other than the token's gives 401 before the file is opened |
| Files.UnparsableIsServerError | api/files.go:133-138 | content that does not parse is refused with the parser's error, a 500 |
| Files.EmptyFileIsServerError | api/files.go:133-146 | a file with no records parses to a 0 x 0 matrix, which mat.NewDense refuses, a 500 |
| Files.GeneratedCsvAccepted | api/files.go:126-146 | a generated CSV uploaded under the token's own username and within the size limit parses into a rows x cols matrix of rows * cols numbers and is accepted exactly when that matrix encodes, with the token's username and the encoding |
| Files.FileStore.Store | api/files.go:148-193 | GetFile is sent first; with no row, CreateFile inserts a fresh ID, and any other outcome, a row or another error, sends UpdateFile; a failed write gives 500 and leaves the table as it was; success replaces only the user's row and returns its ID and the change time `now`, which the insert or update also stores in the row |
| Files.FileStore.UploadFile | api/files.go:87-194 | a refused request gets its refusal's status and sends no query; an accepted one sends GetFile, then CreateFile when there is no row and UpdateFile otherwise; a failed write gives 500 and changes nothing; on 200 only the user's entry changes, holding the encoding, a fresh ID for a new row or the old ID for an update, and the change time `now`, which is also the response's time |

## Left out

- Floating point. Rounding, overflow and `math.Pow` are not modelled: numbers are reals.
- A t statistic that would be NaN, +Inf or -Inf is `None`. The signs of zeros are not kept: Go's `beta / +Inf` is +0 or -0, and the model gives 0.
- gonum's `Inverse` is a parameter. The model knows the shape of what it returns (`InverseShape`) and that an exactly singular matrix is rejected (`RejectsSingular`). gonum's near-singularity test, which also rejects some invertible matrices, is not modelled.
- `math.Sqrt` is a parameter `sqrt`. The model only knows what `SqrtContract` says of it: sqrt(0) is 0, and on non-negative numbers it gives the non-negative root. `Root` supplies NaN for negative inputs and +Inf for +Inf.
- `stat.Mean` and `stat.Variance` are modelled by their definitions over reals (unweighted mean; sample variance with divisor n - 1). gonum's floating-point algorithm for them is not modelled.
- The output strings of `LinearRegression` (`mat.Formatted` with `%.5f`) are not modelled. The model returns the coefficient matrix and the t statistics instead of text.
- Regression.LinearRegression: requires at least one row and two columns. gonum panics on an empty slice or view in those shapes, so the model has no answer for them.
- Regression: the divisor is `r - c - 2` with c counting every input column, as the code has it. The code never checks it. A zero divisor gives a +Inf or NaN variance and no error (`ZeroDivisor`). A negative divisor gives a non-positive variance, which is negative when some residual is non-zero.
- StatsUtil.Ones: requires rows and cols of at least 1, because `mat.NewDense` panics on a zero dimension.
- The tokenizer (`encoding/csv`) is an input to `ParseCsvToFloatSlice`. Comments, `LazyQuotes` and the reader's line-number bookkeeping are not modelled.
- CsvReader.Read: requires text without quotes (`"`) or carriage returns, with the reader's defaults. Quoted fields and `\r\n` line endings are not modelled, and neither is any promise about such text. `RandomCSV`'s output has neither (`Rand.CsvText`).
- CsvReader.NoRowLengthMismatch: holds only for text without quotes or carriage returns, like `CsvReader.Read`.
- Error texts of `fmt.Errorf`, which wrap the parser's and the store's errors, are not modelled. The model carries the error kind and, for a bad number, the trimmed field.
- `strconv.ParseFloat` is a parameter `parse`.
- `strconv.FormatFloat` is not modelled: the generated cells are an input, and each one is assumed to be non-empty, free of commas and newlines, and parseable (`Cell`).
- Rand.RandomCsv: requires `rows >= 0`, and `cols >= 1` when rows > 0. Those are the inputs for which the Go loop ends. With `cols <= 0` and rows > 0 neither branch advances, and a negative `rows` is only reached after int wrap-around.
- Rand.RandomCsvParses: with zero rows the parse gives zero columns, not `cols`, as the code does for empty input.
- `RandomData` and the other random helpers' use of the global source: the draws are parameters and seeding from the clock is not modelled. RandomData's `MarshalBinary` and base64 step is not modelled; its parse step is (`SampleCsvParses`).
- Strings.ToLower: maps ASCII letters only. No non-ASCII character lower-cases to a letter of "bearer", so verdicts are unaffected. Only the message text for an unsupported non-ASCII scheme can differ.
- Token verification (PASETO decryption, expiry, `uuid`) is a parameter `verify` of `Authorize`. bcrypt (`util/password.go`) is not part of this model.
- The gin context is not modelled. The verdict replaces `AbortWithStatusJSON`, `Set` and `Next`, and `getPayload` (api/server.go:71-77) is the `payloadUser` argument.
- `mat.NewDense(...).MarshalBinary()` with base64 is the `Encoder` parameter. Its encoding is opaque.
- The database is `FileStore`, a username-keyed table. The generated queries in `dbase/sqlc/files.sql.go`, the connection, and query context cancellation are not part of this model.
- Database faults are the parameters `getFault` and `writeFault`. The database clock is `now`, read when a row is inserted or updated.
- Files.FileStore.Store: the time an update reports is taken to be the change time, as the handler's `ChangedAt` field says; the handler's table schema and its UPDATE query are not part of this model, so this is an assumption about them.
- Concurrency: requests are handled one at a time. Two uploads racing between `GetFile` and `CreateFile` are not modelled.
- The other handlers (`api/users.go`, `api/analyses.go`), routing, configuration and `main.go` are not part of this model.
