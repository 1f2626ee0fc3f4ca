/**
 * util/rand.go: random test data. The package-level random source is a
 * parameter: `int63n` is what rand.Int63n returns for a bound, `picks` are
 * the successive results of rand.Intn(25), and `cells` are the successive
 * strconv.FormatFloat(rand.Float64()*100, 'f', 6, 64) texts, row by row.
 */
module Rand {
  import opened Wrappers
  import opened Csv
  import opened CsvReader

  const Alphabet: string := "abcdefghijklmnopqrstuvxyz"
  const NameLen: nat := 6
  const PasswordLen: nat := 8
  const CsvRows: nat := 10
  const CsvCols: nat := 10
  const EmailDomain: string := "@email.com"

  const Two63: int := 0x8000_0000_0000_0000
  const Two64: int := 0x1_0000_0000_0000_0000

  type Int64 = x: int | -0x8000_0000_0000_0000 <= x < 0x8000_0000_0000_0000

  /** Two's-complement wrap-around of int64 arithmetic. */
  function Wrap(x: int): (y: Int64)
    ensures (y - x) % Two64 == 0
    ensures -Two63 <= x < Two63 ==> y == x
  {
    (x + Two63) % Two64 - Two63
  }

  /** rand.Int63n's promise: for a positive bound n, a value in [0, n). */
  ghost predicate Int63nContract(int63n: int -> int) {
    forall n :: 0 < n ==> 0 <= int63n(n) < n
  }

  /**
   * RandomInt: min + Int63n(max - min + 1) in int64 arithmetic; None where
   * Int63n panics because the wrapped bound is not positive.
   */
  function RandomInt(min: Int64, max: Int64, int63n: int -> int): (r: Option<Int64>)
    requires Int63nContract(int63n)
    ensures min <= max && max - min < Two63 - 1 ==> r.Some? && min <= r.value <= max
  {
    var n := Wrap(max - min + 1);
    if n <= 0 then None else Some(Wrap(min + int63n(n)))
  }

  /**
   * RandomInt panics exactly when max < min with a span that does not wrap,
   * or when the range [min, max] has 2^63 or more values.
   */
  lemma RandomIntPanics(min: Int64, max: Int64, int63n: int -> int)
    requires Int63nContract(int63n)
    ensures RandomInt(min, max, int63n).None? <==>
      (max < min && min - max <= Two63 + 1) || max - min >= Two63 - 1
  {
    var d := max - min + 1;
    if d < -Two63 {
      assert Wrap(d) == d + Two64;
    } else if d >= Two63 {
      assert Wrap(d) == d - Two64;
    }
  }

  predicate ValidPicks(picks: seq<int>) {
    forall i | 0 <= i < |picks| :: 0 <= picks[i] < |Alphabet|
  }

  /** RandomString: n letters, the i-th being the alphabet letter the i-th draw picks. */
  method RandomString(n: int, picks: seq<int>) returns (s: string)
    requires ValidPicks(picks) && n <= |picks|
    ensures |s| == if n < 0 then 0 else n
    ensures forall i | 0 <= i < |s| :: s[i] == Alphabet[picks[i]]
    ensures forall c | c in s :: c in Alphabet && c != 'w'
  {
    s := [];
    var i := 0;
    while i < n
      invariant 0 <= i <= (if n < 0 then 0 else n)
      invariant |s| == i
      invariant forall j | 0 <= j < i :: s[j] == Alphabet[picks[j]]
    {
      s := s + [Alphabet[picks[i]]];
      i := i + 1;
    }
    assert 'w' !in Alphabet;
    forall c | c in s
      ensures c in Alphabet
    {
      var j :| 0 <= j < |s| && s[j] == c;
      assert Alphabet[picks[j]] in Alphabet;
    }
  }

  method RandomUser(picks: seq<int>) returns (user: string)
    requires ValidPicks(picks) && NameLen <= |picks|
    ensures |user| == NameLen
    ensures forall i | 0 <= i < |user| :: user[i] == Alphabet[picks[i]]
  {
    user := RandomString(NameLen, picks);
  }

  method RandomEmail(picks: seq<int>) returns (email: string)
    requires ValidPicks(picks) && NameLen <= |picks|
    ensures |email| == NameLen + |EmailDomain|
    ensures forall i | 0 <= i < NameLen :: email[i] == Alphabet[picks[i]]
    ensures email[NameLen..] == EmailDomain
  {
    var name := RandomString(NameLen, picks);
    email := name + EmailDomain;
  }

  method RandomPassword(picks: seq<int>) returns (password: string)
    requires ValidPicks(picks) && PasswordLen <= |picks|
    ensures |password| == PasswordLen
    ensures forall i | 0 <= i < |password| :: password[i] == Alphabet[picks[i]]
  {
    password := RandomString(PasswordLen, picks);
  }

  /** `cells` has `rows` rows of `cols` cells each. */
  predicate Grid(cells: seq<seq<string>>, rows: int, cols: int) {
    |cells| == rows && forall i | 0 <= i < |cells| :: |cells[i]| == cols
  }

  /** One line per row: the row's cells joined by commas. */
  function RowLines(cells: seq<seq<string>>): (lines: seq<string>)
    ensures |lines| == |cells|
  {
    seq(|cells|, i requires 0 <= i < |cells| => Join(cells[i], ','))
  }

  /** The text RandomCSV builds: each row's line followed by a newline. */
  function CsvText(cells: seq<seq<string>>): (text: string)
    ensures Plain(cells) ==> '"' !in text && '\r' !in text
  {
    CsvTextLacks(cells, '"');
    CsvTextLacks(cells, '\r');
    Terminated(RowLines(cells))
  }

  /** No cell holds a quote character or a carriage return. */
  predicate Plain(cells: seq<seq<string>>) {
    forall i, j | 0 <= i < |cells| && 0 <= j < |cells[i]| :: '"' !in cells[i][j] && '\r' !in cells[i][j]
  }

  /** A character other than the separators that is in no cell is not in the generated text. */
  lemma CsvTextLacks(cells: seq<seq<string>>, x: char)
    requires x != ',' && x != '\n'
    ensures (forall i, j | 0 <= i < |cells| && 0 <= j < |cells[i]| :: x !in cells[i][j]) ==>
      x !in Terminated(RowLines(cells))
  {
    if forall i, j | 0 <= i < |cells| && 0 <= j < |cells[i]| :: x !in cells[i][j] {
      var lines := RowLines(cells);
      forall k | 0 <= k < |lines|
        ensures x !in lines[k]
      {
        assert forall j | 0 <= j < |cells[k]| :: x !in cells[k][j];
        NotInJoin(cells[k], ',', x);
      }
      NotInTerminated(lines, x);
    }
  }

  /** What RandomCSV has built after r full rows and c cells of row r. */
  function Partial(cells: seq<seq<string>>, r: nat, c: nat): string
    requires r <= |cells| && (r < |cells| ==> c <= |cells[r]|) && (r == |cells| ==> c == 0)
  {
    CsvText(cells[..r]) + (if c == 0 then "" else Join(cells[r][..c], ',') + ",")
  }

  /**
   * RandomCSV: draws one number per cell, row by row, writing a comma after
   * every cell but the last of a row and a newline after that one. The loop
   * ends only when `rows` rows are complete, which needs rows >= 0 and, for
   * rows > 0, cols >= 1.
   */
  method RandomCsv(rows: int, cols: int, cells: seq<seq<string>>) returns (text: string)
    requires rows >= 0 && (rows == 0 || cols >= 1)
    requires Grid(cells, rows, cols)
    ensures text == CsvText(cells)
    ensures rows == 0 ==> text == ""
  {
    text := "";
    var r, c := 0, 0;
    while r != rows
      invariant 0 <= r <= rows
      invariant r < rows ==> 0 <= c < cols
      invariant r == rows ==> c == 0
      invariant text == Partial(cells, r, c)
      decreases rows - r, cols - c
    {
      var elem := cells[r][c];
      if c == cols - 1 {
        RowDone(cells, r, c);
        text := text + elem + "\n";
        c := 0;
        r := r + 1;
      } else if c < cols {
        CellAdded(cells, r, c);
        text := text + elem + ",";
        c := c + 1;
      }
    }
    assert cells[..r] == cells;
  }

  lemma CellAdded(cells: seq<seq<string>>, r: nat, c: nat)
    requires r < |cells| && c + 1 < |cells[r]|
    ensures Partial(cells, r, c + 1) == Partial(cells, r, c) + cells[r][c] + ","
  {
    var row := cells[r];
    assert row[..c + 1] == row[..c] + [row[c]];
    if c == 0 {
      assert row[..1] == [row[0]];
    } else {
      JoinSnoc(row[..c], row[c], ',');
    }
  }

  lemma RowDone(cells: seq<seq<string>>, r: nat, c: nat)
    requires r < |cells| && c + 1 == |cells[r]|
    ensures Partial(cells, r + 1, 0) == Partial(cells, r, c) + cells[r][c] + "\n"
  {
    var row := cells[r];
    assert row == row[..c] + [row[c]];
    if c == 0 {
      assert row == [row[0]];
    } else {
      JoinSnoc(row[..c], row[c], ',');
    }
    assert RowLines(cells[..r + 1]) == RowLines(cells[..r]) + [Join(row, ',')];
    TerminatedSnoc(RowLines(cells[..r]), Join(row, ','));
  }

  /** A character in neither the pieces nor the separator is not in their join. */
  lemma {:induction false} NotInJoin(parts: seq<string>, sep: char, x: char)
    requires x != sep && forall k | 0 <= k < |parts| :: x !in parts[k]
    ensures x !in Join(parts, sep)
    decreases |parts|
  {
    if |parts| > 1 {
      NotInJoin(parts[1..], sep, x);
    }
  }

  lemma {:induction false} JoinStartsWithFirst(parts: seq<string>, sep: char)
    requires parts != []
    ensures |Join(parts, sep)| >= |parts[0]|
  {
  }

  lemma {:induction false} RecordsOfNonEmptyLines(lines: seq<string>)
    requires forall k | 0 <= k < |lines| :: lines[k] != ""
    ensures Records(lines) == seq(|lines|, i requires 0 <= i < |lines| => SplitOn(lines[i], ','))
    decreases |lines|
  {
    if lines != [] {
      RecordsOfNonEmptyLines(lines[1..]);
    }
  }

  /** Cells as FormatFloat writes them: non-empty, free of separators, and read back by ParseFloat. */
  predicate Cell(parse: FloatParser, s: string) {
    s != "" && ',' !in s && '\n' !in s && '"' !in s && '\r' !in s && Numeric(parse, s)
  }

  /**
   * With cells free of commas and newlines, the generated text has one line
   * per row, and each line splits at its commas into exactly that row's cells.
   */
  lemma CsvLines(cells: seq<seq<string>>, cols: nat)
    requires cols >= 1 && Grid(cells, |cells|, cols)
    requires forall i, j | 0 <= i < |cells| && 0 <= j < cols :: ',' !in cells[i][j] && '\n' !in cells[i][j]
    ensures Lines(CsvText(cells)) == RowLines(cells)
    ensures forall k | 0 <= k < |cells| :: SplitOn(RowLines(cells)[k], ',') == cells[k]
  {
    var lines := RowLines(cells);
    forall k | 0 <= k < |lines|
      ensures '\n' !in lines[k] && SplitOn(lines[k], ',') == cells[k]
    {
      assert forall j | 0 <= j < |cells[k]| :: ',' !in cells[k][j] && '\n' !in cells[k][j];
      NotInJoin(cells[k], ',', '\n');
      SplitJoin(cells[k], ',');
    }
    LinesOfTerminated(lines);
  }

  /** The reader returns one record per generated row, holding that row's cells. */
  lemma ReadCsvText(cells: seq<seq<string>>, cols: nat, parse: FloatParser)
    requires cols >= 1 && Grid(cells, |cells|, cols)
    requires forall i, j | 0 <= i < |cells| && 0 <= j < cols :: Cell(parse, cells[i][j])
    ensures '"' !in CsvText(cells) && '\r' !in CsvText(cells)
    ensures |Read(CsvText(cells))| == |cells|
    ensures forall k | 0 <= k < |cells| :: Read(CsvText(cells))[k] == ReadResult(cells[k], false)
  {
    var lines := RowLines(cells);
    forall k | 0 <= k < |lines|
      ensures lines[k] != ""
    {
      assert Cell(parse, cells[k][0]);
      JoinStartsWithFirst(cells[k], ',');
    }
    CsvLines(cells, cols);
    RecordsOfNonEmptyLines(lines);
  }

  /**
   * Reading and parsing RandomCSV's text succeeds with as many rows as were
   * generated and the generated number of columns.
   */
  lemma RandomCsvParses(cells: seq<seq<string>>, rows: nat, cols: nat, parse: FloatParser)
    requires cols >= 1 && Grid(cells, rows, cols)
    requires forall i, j | 0 <= i < rows && 0 <= j < cols :: Cell(parse, cells[i][j])
    ensures '"' !in CsvText(cells) && '\r' !in CsvText(cells)
    ensures var p := Expected(Read(CsvText(cells)), parse);
      && p.err == None && p.rows == rows && p.cols == (if rows == 0 then 0 else cols)
      && |p.data| == rows * p.cols
  {
    ReadCsvText(cells, cols, parse);
    GridParses(Read(CsvText(cells)), cells, rows, cols, parse);
  }

  /** One row of a grid of numeric cells, read as an unflagged record, passes the parser's checks. */
  lemma GridRowPasses(row: seq<string>, cols: nat, parse: FloatParser)
    requires |row| == cols
    requires forall j | 0 <= j < cols :: Cell(parse, row[j])
    ensures Passes(ReadResult(row, false), cols, parse)
  {
    forall j | 0 <= j < |row|
      ensures Numeric(parse, row[j])
    {
      assert Cell(parse, row[j]);
    }
  }

  /** Parsing a stream that holds the rows of a grid of numeric cells, one unflagged record each. */
  lemma GridParses(stream: seq<ReadResult>, cells: seq<seq<string>>, rows: nat, cols: nat, parse: FloatParser)
    requires cols >= 1 && Grid(cells, rows, cols)
    requires forall i, j | 0 <= i < rows && 0 <= j < cols :: Cell(parse, cells[i][j])
    requires |stream| == rows && forall k | 0 <= k < rows :: stream[k] == ReadResult(cells[k], false)
    ensures var p := Expected(stream, parse);
      && p.err == None && p.rows == rows && p.cols == (if rows == 0 then 0 else cols)
      && |p.data| == rows * p.cols
  {
    CountedAllNonEmpty(stream);
    var w := Width(stream);
    assert rows > 0 ==> w == cols;
    forall k | 0 <= k < rows
      ensures Passes(stream[k], w, parse)
    {
      GridRowPasses(cells[k], cols, parse);
    }
    SucceedsIffAccepted(stream, parse);
  }

  /** ...and the number of cell (i, j) sits at index i * cols + j of the data. */
  lemma RandomCsvRowMajor(cells: seq<seq<string>>, rows: nat, cols: nat, parse: FloatParser, i: nat, j: nat)
    requires cols >= 1 && Grid(cells, rows, cols)
    requires forall i, j | 0 <= i < rows && 0 <= j < cols :: Cell(parse, cells[i][j])
    requires i < rows && j < cols
    ensures '"' !in CsvText(cells) && '\r' !in CsvText(cells)
    ensures var data := Expected(Read(CsvText(cells)), parse).data;
      0 <= i * cols + j < |data| && Field(parse, cells[i][j]) == Some(data[i * cols + j])
  {
    ReadCsvText(cells, cols, parse);
    RandomCsvParses(cells, rows, cols, parse);
    GridRowMajor(Read(CsvText(cells)), cells, cols, parse, i, j);
  }

  /** Row-major layout for a stream that holds the rows of a grid, one unflagged record each. */
  lemma GridRowMajor(stream: seq<ReadResult>, cells: seq<seq<string>>, cols: nat, parse: FloatParser, i: nat, j: nat)
    requires |stream| == |cells| && forall k | 0 <= k < |cells| :: stream[k] == ReadResult(cells[k], false)
    requires cols >= 1 && Grid(cells, |cells|, cols) && i < |cells| && j < cols
    requires Expected(stream, parse).err.None? && Expected(stream, parse).cols == cols
    ensures var data := Expected(stream, parse).data;
      0 <= i * cols + j < |data| && Field(parse, cells[i][j]) == Some(data[i * cols + j])
  {
    CountedAllNonEmpty(stream);
    RowMajor(stream, parse, i, j);
  }

  /** The sample the csv test parses: csvRows rows of csvCols cells. */
  lemma SampleCsvParses(cells: seq<seq<string>>, parse: FloatParser)
    requires Grid(cells, CsvRows, CsvCols)
    requires forall i, j | 0 <= i < CsvRows && 0 <= j < CsvCols :: Cell(parse, cells[i][j])
    ensures '"' !in CsvText(cells) && '\r' !in CsvText(cells)
    ensures var p := Expected(Read(CsvText(cells)), parse);
      p.err == None && p.rows == CsvRows && p.cols == CsvCols && |p.data| == p.rows * p.cols
  {
    RandomCsvParses(cells, CsvRows, CsvCols, parse);
  }
}
