/**
 * util/csv.go: ParseCSVToFloatSlice and appendFloat.
 *
 * The CSV tokenizer (encoding/csv's Reader.Read) is an input: the sequence of
 * what each call of Read returned before io.EOF, and the end of the sequence
 * is io.EOF. strconv.ParseFloat is a parameter `parse`, a partial function
 * from text to a number.
 */
module Csv {
  import opened Wrappers
  import opened Strings
  import Matrices

  /** What one call of Read returned: the fields of a record and whether an error came with them. */
  datatype ReadResult = ReadResult(record: seq<string>, failed: bool)

  datatype CsvError =
    | ReadFailed              // "Error parsing file": the reader reported an error with a non-empty record
    | RowLengthMismatch       // "All rows should have same length!!!"
    | NotANumber(num: string) // strconv.ParseFloat's error, which names the trimmed field

  /** The four results of ParseCSVToFloatSlice. */
  datatype Parsed = Parsed(rows: nat, cols: nat, data: seq<real>, err: Option<CsvError>)

  type FloatParser = string -> Option<real>

  /** strconv.ParseFloat(strings.TrimSpace(s), 64). */
  function Field(parse: FloatParser, s: string): Option<real> {
    parse(TrimSpace(s))
  }

  predicate Numeric(parse: FloatParser, s: string) {
    Field(parse, s).Some?
  }

  predicate AllNumeric(record: seq<string>, parse: FloatParser) {
    forall j | 0 <= j < |record| :: Numeric(parse, record[j])
  }

  /** The number of leading fields of `record` that parse as numbers. */
  function NumericPrefix(record: seq<string>, parse: FloatParser): (k: nat)
    ensures k <= |record|
    ensures forall j | 0 <= j < k :: Numeric(parse, record[j])
    ensures k < |record| ==> !Numeric(parse, record[k])
  {
    if record == [] || !Numeric(parse, record[0]) then 0
    else 1 + NumericPrefix(record[1..], parse)
  }

  /** The numbers of a record whose fields all parse, in field order. */
  function Values(record: seq<string>, parse: FloatParser): (vs: seq<real>)
    requires AllNumeric(record, parse)
    ensures |vs| == |record|
    ensures forall j | 0 <= j < |record| :: vs[j] == Field(parse, record[j]).value
  {
    if record == [] then []
    else [Field(parse, record[0]).value] + Values(record[1..], parse)
  }

  /**
   * appendFloat: appends the numbers of `record` to `data` in order; at the
   * first field that does not parse it stops and returns what it had so far
   * together with the parse error.
   */
  method AppendFloat(data: seq<real>, record: seq<string>, parse: FloatParser)
    returns (out: seq<real>, err: Option<CsvError>)
    ensures var k := NumericPrefix(record, parse);
      && out == data + Values(record[..k], parse)
      && (err.None? <==> k == |record|)
      && (k < |record| ==> err == Some(NotANumber(TrimSpace(record[k]))))
  {
    out := data;
    for i := 0 to |record|
      invariant forall j | 0 <= j < i :: Numeric(parse, record[j])
      invariant out == data + Values(record[..i], parse)
    {
      var f := Field(parse, record[i]);
      if f.None? {
        return out, Some(NotANumber(TrimSpace(record[i])));
      }
      ValuesSnoc(record, i, parse);
      out := out + [f.value];
    }
    assert record[..|record|] == record;
    err := None;
  }

  lemma ValuesSnoc(record: seq<string>, i: nat, parse: FloatParser)
    requires i < |record| && AllNumeric(record[..i + 1], parse)
    ensures AllNumeric(record[..i], parse)
    ensures Values(record[..i + 1], parse) == Values(record[..i], parse) + [Field(parse, record[i]).value]
  {
    assert record[..i + 1][..i] == record[..i];
  }

  /** The records the parser counts as rows: the non-empty ones, in order. */
  function Counted(stream: seq<ReadResult>): (recs: seq<ReadResult>)
    ensures |recs| <= |stream|
    ensures forall k | 0 <= k < |recs| :: recs[k].record != []
  {
    if stream == [] then []
    else
      var last := stream[|stream| - 1];
      Counted(stream[..|stream| - 1]) + (if last.record == [] then [] else [last])
  }

  /** The number of columns: the length of the first counted record, or 0 without one. */
  function Width(recs: seq<ReadResult>): nat {
    if recs == [] then 0 else |recs[0].record|
  }

  /** The checks a counted record must pass when the first counted record has `w` fields. */
  predicate Passes(rec: ReadResult, w: nat, parse: FloatParser) {
    !rec.failed && |rec.record| == w && AllNumeric(rec.record, parse)
  }

  /** The error the loop reports for a counted record, checked in the loop's order. */
  function RecordError(rec: ReadResult, w: nat, parse: FloatParser): (e: Option<CsvError>)
    ensures e.None? <==> Passes(rec, w, parse)
  {
    if rec.failed then Some(ReadFailed)
    else if |rec.record| != w then Some(RowLengthMismatch)
    else if !AllNumeric(rec.record, parse) then Some(NotANumber(TrimSpace(rec.record[NumericPrefix(rec.record, parse)])))
    else None
  }

  /** Every record of `recs` passes the loop's checks against width `w`. */
  predicate Accepted(recs: seq<ReadResult>, w: nat, parse: FloatParser) {
    forall k | 0 <= k < |recs| :: Passes(recs[k], w, parse)
  }

  /** Index of the first counted record that the loop rejects, |recs| when there is none. */
  function FirstFailure(recs: seq<ReadResult>, w: nat, parse: FloatParser): (k: nat)
    ensures k <= |recs|
    ensures forall j | 0 <= j < k :: Passes(recs[j], w, parse)
    ensures k < |recs| ==> !Passes(recs[k], w, parse)
  {
    if recs == [] || !Passes(recs[0], w, parse) then 0
    else 1 + FirstFailure(recs[1..], w, parse)
  }

  predicate AllRecordsNumeric(recs: seq<ReadResult>, parse: FloatParser) {
    forall k | 0 <= k < |recs| :: AllNumeric(recs[k].record, parse)
  }

  /** The numbers of all records, record after record. */
  function Flatten(recs: seq<ReadResult>, parse: FloatParser): seq<real>
    requires AllRecordsNumeric(recs, parse)
  {
    if recs == [] then []
    else Flatten(recs[..|recs| - 1], parse) + Values(recs[|recs| - 1].record, parse)
  }

  lemma FlattenSnoc(recs: seq<ReadResult>, x: ReadResult, parse: FloatParser)
    requires AllRecordsNumeric(recs + [x], parse)
    ensures AllRecordsNumeric(recs, parse) && AllNumeric(x.record, parse)
    ensures Flatten(recs + [x], parse) == Flatten(recs, parse) + Values(x.record, parse)
  {
    assert (recs + [x])[..|recs|] == recs;
    assert (recs + [x])[|recs|] == x;
    assert forall k | 0 <= k < |recs| :: (recs + [x])[k] == recs[k];
  }

  /**
   * What ParseCSVToFloatSlice returns for a read sequence: the counted records
   * with their width and numbers when none of them is rejected, otherwise
   * zero rows, zero columns, no data and the error of the first rejected one.
   */
  function Expected(stream: seq<ReadResult>, parse: FloatParser): (p: Parsed)
    ensures p.err.Some? ==> p.rows == 0 && p.cols == 0 && p.data == []
    ensures p.err.None? ==> p.rows == |Counted(stream)| && |p.data| == p.rows * p.cols
    ensures p.err.None? && p.rows > 0 ==> p.cols == |Counted(stream)[0].record|
  {
    var recs := Counted(stream);
    var w := Width(recs);
    var k := FirstFailure(recs, w, parse);
    if k < |recs| then Parsed(0, 0, [], RecordError(recs[k], w, parse))
    else
      FlattenLength(recs, w, parse);
      Parsed(|recs|, w, Flatten(recs, parse), None)
  }

  lemma {:induction false} FlattenLength(recs: seq<ReadResult>, w: nat, parse: FloatParser)
    requires Accepted(recs, w, parse)
    ensures AllRecordsNumeric(recs, parse)
    ensures |Flatten(recs, parse)| == |recs| * w
    decreases |recs|
  {
    AcceptedNumeric(recs, w, parse);
    if recs != [] {
      var n := |recs|;
      var init := recs[..n - 1];
      AcceptedInit(recs, w, parse);
      FlattenLength(init, w, parse);
      assert |Values(recs[n - 1].record, parse)| == w;
      assert |Flatten(recs, parse)| == (n - 1) * w + w;
      MulSucc(n - 1, w);
    }
  }

  lemma AcceptedNumeric(recs: seq<ReadResult>, w: nat, parse: FloatParser)
    requires Accepted(recs, w, parse)
    ensures AllRecordsNumeric(recs, parse)
  {
  }

  lemma AcceptedInit(recs: seq<ReadResult>, w: nat, parse: FloatParser)
    requires recs != [] && Accepted(recs, w, parse)
    ensures Accepted(recs[..|recs| - 1], w, parse)
  {
    var init := recs[..|recs| - 1];
    assert forall k | 0 <= k < |init| :: init[k] == recs[k];
  }

  /**
   * ParseCSVToFloatSlice: reads records until end of input, skipping empty
   * ones; the first counted record fixes the number of columns; every
   * counted record is appended to `data` in row-major order.
   */
  method ParseCsvToFloatSlice(stream: seq<ReadResult>, parse: FloatParser)
    returns (rows: nat, cols: nat, data: seq<real>, err: Option<CsvError>)
    ensures Parsed(rows, cols, data, err) == Expected(stream, parse)
  {
    rows, cols, data, err := 0, 0, [], None;
    var i := 0;
    ghost var recs: seq<ReadResult> := [];
    while i < |stream|
      invariant 0 <= i <= |stream|
      invariant recs == Counted(stream[..i])
      invariant Progress(recs, rows, cols, data, parse)
    {
      var read := stream[i];
      CountedStep(stream, i);
      i := i + 1;
      if |read.record| == 0 {
        assert recs + [] == recs;
        continue;
      }
      if read.failed {
        Rejected(stream, i, recs, if cols == 0 then |read.record| else cols, parse, Some(ReadFailed));
        return 0, 0, [], Some(ReadFailed);
      }
      if cols != 0 && |read.record| != cols {
        Rejected(stream, i, recs, cols, parse, Some(RowLengthMismatch));
        return 0, 0, [], Some(RowLengthMismatch);
      } else if cols == 0 {
        cols := |read.record|;
      }
      ghost var before := data;
      var e;
      data, e := AppendFloat(data, read.record, parse);
      if e.Some? {
        Rejected(stream, i, recs, cols, parse, e);
        return 0, 0, [], e;
      }
      AcceptStep(recs, read, rows, cols, before, data, parse);
      recs := recs + [read];
      rows := rows + 1;
    }
    assert stream[..i] == stream;
    ProgressComplete(stream, rows, cols, data, parse);
  }

  /** The loop's state after the counted records `recs`, all of them accepted. */
  predicate Progress(recs: seq<ReadResult>, rows: nat, cols: nat, data: seq<real>, parse: FloatParser) {
    && rows == |recs| && cols == Width(recs)
    && Accepted(recs, cols, parse) && AllRecordsNumeric(recs, parse)
    && data == Flatten(recs, parse)
  }

  /** Having accepted every counted record of the whole stream, the loop returns what Expected says. */
  lemma ProgressComplete(stream: seq<ReadResult>, rows: nat, cols: nat, data: seq<real>, parse: FloatParser)
    requires Progress(Counted(stream), rows, cols, data, parse)
    ensures Parsed(rows, cols, data, None) == Expected(stream, parse)
  {
    var recs := Counted(stream);
    var k := FirstFailure(recs, cols, parse);
    assert k == |recs|;
  }

  lemma CountedStep(stream: seq<ReadResult>, i: nat)
    requires i < |stream|
    ensures Counted(stream[..i + 1])
      == Counted(stream[..i]) + (if stream[i].record == [] then [] else [stream[i]])
  {
    assert stream[..i + 1][..i] == stream[..i];
  }

  /** Appending a record that passes the checks keeps the loop's invariant. */
  lemma AcceptStep(recs: seq<ReadResult>, read: ReadResult, rows: nat, w: nat,
                   before: seq<real>, after: seq<real>, parse: FloatParser)
    requires Progress(recs, rows, Width(recs), before, parse)
    requires read.record != [] && !read.failed && |read.record| == w
    requires recs != [] ==> w == Width(recs)
    requires NumericPrefix(read.record, parse) == |read.record|
    requires after == before + Values(read.record[..NumericPrefix(read.record, parse)], parse)
    ensures Progress(recs + [read], rows + 1, w, after, parse)
  {
    var all := recs + [read];
    assert all[|recs|] == read;
    assert read.record[..|read.record|] == read.record;
    forall k | 0 <= k < |all|
      ensures Passes(all[k], w, parse) && AllNumeric(all[k].record, parse)
    {
      if k < |recs| {
        assert all[k] == recs[k];
      }
    }
    FlattenSnoc(recs, read, parse);
  }

  /**
   * The loop's view of a rejection: the counted records `recs` before position
   * i - 1 are accepted, and the record there fails the checks against the
   * width `w` it is measured by.
   */
  lemma Rejected(stream: seq<ReadResult>, i: nat, recs: seq<ReadResult>, w: nat, parse: FloatParser, err: Option<CsvError>)
    requires 0 < i <= |stream| && stream[i - 1].record != []
    requires recs == Counted(stream[..i - 1]) && Accepted(recs, Width(recs), parse)
    requires w == if recs == [] then |stream[i - 1].record| else Width(recs)
    requires err.Some? && err == RecordError(stream[i - 1], w, parse)
    ensures Expected(stream, parse) == Parsed(0, 0, [], err)
  {
    CountedStep(stream, i - 1);
    assert stream[..i - 1 + 1] == stream[..i];
    assert Width(Counted(stream[..i])) == w;
    FailsAt(stream, i, parse);
  }

  /** When every counted record before the one read at position i - 1 is accepted, Expected reports that one's error. */
  lemma FailsAt(stream: seq<ReadResult>, i: nat, parse: FloatParser)
    requires 0 < i <= |stream| && stream[i - 1].record != []
    requires Accepted(Counted(stream[..i - 1]), Width(Counted(stream[..i - 1])), parse)
    requires !Passes(stream[i - 1], Width(Counted(stream[..i])), parse)
    ensures Expected(stream, parse) == Parsed(0, 0, [], RecordError(stream[i - 1], Width(Counted(stream[..i])), parse))
  {
    var before := Counted(stream[..i - 1]);
    assert stream[..i][..i - 1] == stream[..i - 1];
    assert Counted(stream[..i]) == before + [stream[i - 1]];
    assert stream == stream[..i] + stream[i..];
    CountedAppend(stream[..i], stream[i..]);
    var recs := Counted(stream);
    assert recs == before + [stream[i - 1]] + Counted(stream[i..]);
    assert Width(recs) == Width(Counted(stream[..i]));
    var w := Width(recs);
    if before != [] {
      assert Width(before) == w;
    }
    forall j | 0 <= j < |before|
      ensures Passes(recs[j], w, parse)
    {
      assert recs[j] == before[j];
    }
    assert recs[|before|] == stream[i - 1];
    var k := FirstFailure(recs, w, parse);
    assert k == |before|;
  }

  lemma {:induction false} CountedAppend(a: seq<ReadResult>, b: seq<ReadResult>)
    ensures Counted(a + b) == Counted(a) + Counted(b)
    decreases |b|
  {
    if b == [] {
      assert a + b == a;
    } else {
      var n := |b|;
      assert (a + b)[..|a + b| - 1] == a + b[..n - 1];
      CountedAppend(a, b[..n - 1]);
    }
  }

  /** When no record is empty, every record is counted. */
  lemma {:induction false} CountedAllNonEmpty(stream: seq<ReadResult>)
    requires forall k | 0 <= k < |stream| :: stream[k].record != []
    ensures Counted(stream) == stream
    decreases |stream|
  {
    if stream != [] {
      var init := stream[..|stream| - 1];
      CountedAllNonEmpty(init);
      assert init + [stream[|stream| - 1]] == stream;
    }
  }

  /** Input with no records at all, or only empty ones, parses to nothing and no error. */
  lemma OnlyEmptyRecords(stream: seq<ReadResult>, parse: FloatParser)
    requires forall k | 0 <= k < |stream| :: stream[k].record == []
    ensures Expected(stream, parse) == Parsed(0, 0, [], None)
  {
    NoneCounted(stream);
  }

  lemma {:induction false} NoneCounted(stream: seq<ReadResult>)
    requires forall k | 0 <= k < |stream| :: stream[k].record == []
    ensures Counted(stream) == []
    decreases |stream|
  {
    if stream != [] {
      NoneCounted(stream[..|stream| - 1]);
    }
  }

  /**
   * An empty record is skipped wherever it occurs, even when the reader
   * reported an error with it: removing it changes nothing.
   */
  lemma EmptyRecordSkipped(a: seq<ReadResult>, e: ReadResult, b: seq<ReadResult>, parse: FloatParser)
    requires e.record == []
    ensures Expected(a + [e] + b, parse) == Expected(a + b, parse)
  {
    CountedAppend(a + [e], b);
    CountedAppend(a, [e]);
    CountedAppend(a, b);
    assert [e][..0] == [];
    assert Counted([e]) == [];
    assert Counted(a + [e]) == Counted(a);
    assert Counted(a + [e] + b) == Counted(a + b);
  }

  /** The call succeeds exactly when every counted record passes the loop's checks. */
  lemma SucceedsIffAccepted(stream: seq<ReadResult>, parse: FloatParser)
    ensures var recs := Counted(stream);
      Expected(stream, parse).err.None? <==> Accepted(recs, Width(recs), parse)
  {
    var recs := Counted(stream);
    var w := Width(recs);
    var k := FirstFailure(recs, w, parse);
    if k < |recs| {
      assert !Passes(recs[k], w, parse);
    }
  }

  /** The call succeeds exactly when every counted record is error-free, has the first one's width and parses. */
  lemma SucceedsIff(stream: seq<ReadResult>, parse: FloatParser)
    ensures var recs := Counted(stream);
      Expected(stream, parse).err.None? <==>
        forall k | 0 <= k < |recs| ::
          !recs[k].failed && |recs[k].record| == |recs[0].record| && AllNumeric(recs[k].record, parse)
  {
    SucceedsIffAccepted(stream, parse);
    var recs := Counted(stream);
    if recs != [] {
      assert Width(recs) == |recs[0].record|;
    }
  }

  /** Field j of the i-th record sits at index i * w + j of the flattened numbers. */
  lemma {:induction false} FlattenIndex(recs: seq<ReadResult>, w: nat, parse: FloatParser, i: nat, j: nat)
    requires Accepted(recs, w, parse)
    requires i < |recs| && j < w
    ensures AllRecordsNumeric(recs, parse) && |Flatten(recs, parse)| == |recs| * w
    ensures 0 <= i * w + j < |Flatten(recs, parse)|
    ensures Flatten(recs, parse)[i * w + j] == Field(parse, recs[i].record[j]).value
    decreases |recs|
  {
    var n := |recs|;
    var init := recs[..n - 1];
    AcceptedInit(recs, w, parse);
    FlattenLength(init, w, parse);
    FlattenLength(recs, w, parse);
    var last := recs[n - 1];
    assert Flatten(recs, parse) == Flatten(init, parse) + Values(last.record, parse);
    Matrices.MulLeq(0, i, w);
    if i < n - 1 {
      FlattenIndex(init, w, parse, i, j);
      Matrices.MulLeq(i + 1, n - 1, w);
      assert i * w + j < (i + 1) * w;
    } else {
      assert i * w + j == |Flatten(init, parse)| + j;
    }
  }

  lemma MulSucc(a: nat, w: nat)
    ensures (a + 1) * w == a * w + w
  {
  }

  /**
   * Row-major layout: on success, field j of the i-th counted record is the
   * number at index i * cols + j.
   */
  lemma RowMajor(stream: seq<ReadResult>, parse: FloatParser, i: nat, j: nat)
    requires Expected(stream, parse).err.None?
    requires i < Expected(stream, parse).rows && j < Expected(stream, parse).cols
    ensures var data, cols := Expected(stream, parse).data, Expected(stream, parse).cols;
      0 <= i * cols + j < |data| && Field(parse, Counted(stream)[i].record[j]) == Some(data[i * cols + j])
  {
    var recs := Counted(stream);
    FlattenIndex(recs, Width(recs), parse, i, j);
  }
}
