/**
 * The part of encoding/csv's Reader that ParseCSVToFloatSlice relies on, for
 * text with no quote characters and no carriage returns, with the reader's
 * defaults (separator ',', no comment character, FieldsPerRecord 0): lines
 * end at '\n', empty lines are skipped, a line's fields are separated by
 * ',', and the first record fixes how many fields every later record must
 * have; a record with another count comes back together with an error.
 */
module CsvReader {
  import opened Wrappers
  import opened Csv

  /** The pieces of `s` between occurrences of `sep`; there is always at least one. */
  function SplitOn(s: string, sep: char): (parts: seq<string>)
    ensures |parts| >= 1
    ensures forall k | 0 <= k < |parts| :: sep !in parts[k]
  {
    if s == [] then [""]
    else
      var rest := SplitOn(s[1..], sep);
      if s[0] == sep then [""] + rest
      else [[s[0]] + rest[0]] + rest[1..]
  }

  /** The pieces of `parts` with `sep` between neighbours. */
  function Join(parts: seq<string>, sep: char): string {
    if parts == [] then ""
    else if |parts| == 1 then parts[0]
    else parts[0] + [sep] + Join(parts[1..], sep)
  }

  /** Joining the pieces of a split gives back the text. */
  lemma {:induction false} JoinSplit(s: string, sep: char)
    ensures Join(SplitOn(s, sep), sep) == s
    decreases |s|
  {
    if s != [] {
      var rest := SplitOn(s[1..], sep);
      JoinSplit(s[1..], sep);
      if s[0] == sep {
        assert SplitOn(s, sep) == [""] + rest;
        assert ([""] + rest)[1..] == rest;
      } else {
        var parts := [[s[0]] + rest[0]] + rest[1..];
        assert SplitOn(s, sep) == parts;
        if |rest| == 1 {
          assert rest == [rest[0]];
        } else {
          assert parts[1..] == rest[1..];
          assert Join(rest, sep) == rest[0] + [sep] + Join(rest[1..], sep);
        }
      }
    }
  }

  /** A piece free of `sep` in front of some text becomes the front of the first piece. */
  lemma {:induction false} SplitAfter(p: string, t: string, sep: char)
    requires sep !in p
    ensures SplitOn(p + t, sep) == [p + SplitOn(t, sep)[0]] + SplitOn(t, sep)[1..]
    decreases |p|
  {
    if p != [] {
      assert (p + t)[1..] == p[1..] + t;
      SplitAfter(p[1..], t, sep);
      assert [p[0]] + (p[1..] + SplitOn(t, sep)[0]) == p + SplitOn(t, sep)[0];
    } else {
      var parts := SplitOn(t, sep);
      assert p + t == t && p + parts[0] == parts[0];
      assert parts == [parts[0]] + parts[1..];
    }
  }

  /** Splitting joined pieces that do not contain the separator gives the pieces back. */
  lemma {:induction false} SplitJoin(parts: seq<string>, sep: char)
    requires parts != []
    requires forall k | 0 <= k < |parts| :: sep !in parts[k]
    ensures SplitOn(Join(parts, sep), sep) == parts
    decreases |parts|
  {
    if |parts| == 1 {
      SplitAfter(parts[0], "", sep);
      assert parts[0] + "" == parts[0];
    } else {
      var rest := Join(parts[1..], sep);
      SplitJoin(parts[1..], sep);
      SplitAfter(parts[0], [sep] + rest, sep);
      assert parts[0] + [sep] + rest == parts[0] + ([sep] + rest);
      assert SplitOn([sep] + rest, sep) == [""] + SplitOn(rest, sep) by {
        assert ([sep] + rest)[1..] == rest;
      }
      assert parts[0] + "" == parts[0];
      assert parts == [parts[0]] + parts[1..];
    }
  }

  lemma {:induction false} JoinSnoc(parts: seq<string>, x: string, sep: char)
    requires parts != []
    ensures Join(parts + [x], sep) == Join(parts, sep) + [sep] + x
    decreases |parts|
  {
    if |parts| == 1 {
      assert parts + [x] == [parts[0], x];
      assert [parts[0], x][1..] == [x];
    } else {
      assert (parts + [x])[1..] == parts[1..] + [x];
      JoinSnoc(parts[1..], x, sep);
    }
  }

  /** Lines each followed by a newline. */
  function Terminated(lines: seq<string>): (text: string)
    ensures |text| >= |lines|
  {
    if lines == [] then "" else lines[0] + "\n" + Terminated(lines[1..])
  }

  /** A character other than the newline that is in no line is not in the terminated text. */
  lemma {:induction false} NotInTerminated(lines: seq<string>, x: char)
    requires x != '\n' && forall k | 0 <= k < |lines| :: x !in lines[k]
    ensures x !in Terminated(lines)
    decreases |lines|
  {
    if lines != [] {
      NotInTerminated(lines[1..], x);
    }
  }

  lemma {:induction false} TerminatedSnoc(lines: seq<string>, x: string)
    ensures Terminated(lines + [x]) == Terminated(lines) + x + "\n"
    decreases |lines|
  {
    if lines == [] {
      assert [x][1..] == [];
    } else {
      assert (lines + [x])[1..] == lines[1..] + [x];
      TerminatedSnoc(lines[1..], x);
    }
  }

  lemma {:induction false} TerminatedIsJoin(lines: seq<string>)
    ensures Terminated(lines) == Join(lines + [""], '\n')
    decreases |lines|
  {
    if lines == [] {
      assert lines + [""] == [""];
    } else {
      TerminatedIsJoin(lines[1..]);
      assert (lines + [""])[1..] == lines[1..] + [""];
    }
  }

  /** The lines of `text`: the pieces between newlines, without the empty piece after a final newline. */
  function Lines(text: string): seq<string> {
    var parts := SplitOn(text, '\n');
    if parts[|parts| - 1] == "" then parts[..|parts| - 1] else parts
  }

  /** Text made of newline-terminated lines reads back as those lines. */
  lemma LinesOfTerminated(lines: seq<string>)
    requires forall k | 0 <= k < |lines| :: '\n' !in lines[k]
    ensures Lines(Terminated(lines)) == lines
  {
    TerminatedIsJoin(lines);
    var all := lines + [""];
    assert forall k | 0 <= k < |all| :: '\n' !in all[k] by {
      forall k | 0 <= k < |all|
        ensures '\n' !in all[k]
      {
        if k < |lines| {
          assert all[k] == lines[k];
        }
      }
    }
    SplitJoin(all, '\n');
    assert all[..|all| - 1] == lines;
  }

  /** The fields of the non-empty lines, in order; empty lines are skipped. */
  function Records(lines: seq<string>): (recs: seq<seq<string>>)
    ensures |recs| <= |lines|
    ensures forall k | 0 <= k < |recs| :: |recs[k]| >= 1
  {
    if lines == [] then []
    else (if lines[0] == "" then [] else [SplitOn(lines[0], ',')]) + Records(lines[1..])
  }

  /**
   * Successive results of Read on `text`: each record, flagged as failed when
   * its field count differs from the first record's.
   */
  function Read(text: string): (stream: seq<ReadResult>)
    requires '"' !in text && '\r' !in text
    ensures forall k | 0 <= k < |stream| :: stream[k].record != []
  {
    var recs := Records(Lines(text));
    seq(|recs|, i requires 0 <= i < |recs| => ReadResult(recs[i], |recs[i]| != |recs[0]|))
  }

  /**
   * Through this reader, a ragged row is reported by the reader itself, so
   * the parser's own row-length check never fires: a record whose length
   * differs from the first one's ends the parse with ReadFailed.
   */
  lemma NoRowLengthMismatch(text: string, parse: FloatParser)
    requires '"' !in text && '\r' !in text
    ensures Expected(Read(text), parse).err != Some(RowLengthMismatch)
  {
    var stream := Read(text);
    CountedAllNonEmpty(stream);
    var recs := Counted(stream);
    var w := Width(recs);
    var k := FirstFailure(recs, w, parse);
    if k < |recs| {
      assert recs[k] == stream[k];
      assert w == |recs[0].record|;
      assert RecordError(recs[k], w, parse) != Some(RowLengthMismatch);
    }
  }
}
