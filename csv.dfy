/**
 * The record reader behind `Repository.readCsv`: drop the header, drop every line
 * that is blank once trimmed, split the rest on every comma. There is no quoting,
 * so this is not the quoting format of section 2 of RFC 4180.
 */
module Csv {
  import opened Wrappers
  import opened JavaText

  /** Why loading the database fails. */
  datatype LoadError =
    | FileNotFound(file: string)   // a required file is missing
    | MissingField(index: nat)     // a row too short for the field the loader reads next
    | BadDate(text: string)        // a deadline `LocalDate.parse` rejects
    | BadEnumValue(text: string)   // a job type or status `valueOf` rejects
    | BadTimestamp(text: string)   // an applied-at time `LocalDateTime.parse` rejects

  /** A text file as `Files.readAllLines` gives it, or `None` when it does not exist. */
  type TextFile = Option<seq<string>>

  predicate IsBlankLine(line: string) {
    Trim(line) == []
  }

  /** The fields of one line. */
  function RowOf(line: string): seq<string> {
    Split(Trim(line))
  }

  /** The rows of the given lines, in file order, blank lines skipped. */
  function CsvRows(lines: seq<string>): seq<seq<string>> {
    if lines == [] then []
    else
      var last := lines[|lines| - 1];
      CsvRows(lines[..|lines| - 1]) + (if IsBlankLine(last) then [] else [RowOf(last)])
  }

  /** The lines the reader looks at: all of them, or all but the first. */
  function Body(lines: seq<string>, skipHeader: bool): seq<string> {
    if !skipHeader then lines else if lines == [] then [] else lines[1..]
  }

  /** What `readCsv` returns, or the exception it throws. */
  function ReadRows(file: TextFile, name: string, skipHeader: bool): Result<seq<seq<string>>, LoadError> {
    match file
    case None => Failure(FileNotFound(name))
    case Some(lines) => Success(CsvRows(Body(lines, skipHeader)))
  }

  /** `Repository.readCsv`. */
  method ReadCsv(file: TextFile, name: string, skipHeader: bool) returns (res: Result<seq<seq<string>>, LoadError>)
    ensures res == ReadRows(file, name, skipHeader)
  {
    if file.None? {
      return Failure(FileNotFound(name));
    }
    var lines := file.value;
    var start := if skipHeader then 1 else 0;
    if |lines| < start {
      return Success([]);
    }
    var out: seq<seq<string>> := [];
    var i := start;
    while i < |lines|
      invariant start <= i <= |lines|
      invariant out == CsvRows(lines[start..i])
    {
      var line := Trim(lines[i]);
      if line != [] {
        out := out + [Split(line)];
      }
      assert lines[start..i + 1][..i - start] == lines[start..i];
      i := i + 1;
    }
    assert lines[start..i] == Body(lines, skipHeader);
    return Success(out);
  }

  lemma {:induction false} CsvRowsOfConcat(a: seq<string>, b: seq<string>)
    ensures CsvRows(a + b) == CsvRows(a) + CsvRows(b)
  {
    if b != [] {
      var init := b[..|b| - 1];
      CsvRowsOfConcat(a, init);
      assert (a + b)[..|a + b| - 1] == a + init;
    } else {
      assert a + b == a;
    }
  }

  /** A non-blank line added at the end adds its row at the end. */
  lemma CsvRowsSnoc(lines: seq<string>, line: string)
    requires !IsBlankLine(line)
    ensures CsvRows(lines + [line]) == CsvRows(lines) + [RowOf(line)]
  {
    assert (lines + [line])[..|lines|] == lines;
  }

  /** One more line adds its row at the end, unless it is blank. */
  lemma CsvRowsStep(lines: seq<string>, lo: nat, i: nat)
    requires lo <= i < |lines|
    ensures CsvRows(lines[lo..i + 1]) == CsvRows(lines[lo..i]) + (if IsBlankLine(lines[i]) then [] else [RowOf(lines[i])])
  {
    assert lines[lo..i + 1][..i - lo] == lines[lo..i];
  }

  /** The lines that are not blank, in file order. */
  function NonBlankLines(lines: seq<string>): seq<string> {
    if lines == [] then []
    else
      var last := lines[|lines| - 1];
      NonBlankLines(lines[..|lines| - 1]) + (if IsBlankLine(last) then [] else [last])
  }

  /** One row per non-blank line, in file order. */
  lemma {:induction false} CsvRowsAreSplitLines(lines: seq<string>)
    ensures |CsvRows(lines)| == |NonBlankLines(lines)|
    ensures forall k :: 0 <= k < |CsvRows(lines)| ==> CsvRows(lines)[k] == RowOf(NonBlankLines(lines)[k])
  {
    if lines != [] {
      CsvRowsAreSplitLines(lines[..|lines| - 1]);
    }
  }

  lemma {:induction false} NonBlankLinesAreLines(lines: seq<string>)
    ensures forall l :: l in NonBlankLines(lines) ==> l in lines && !IsBlankLine(l)
  {
    if lines != [] {
      var init := lines[..|lines| - 1];
      NonBlankLinesAreLines(init);
      assert forall l :: l in init ==> l in lines;
    }
  }

  /** A row has one field more than its trimmed line has commas. */
  lemma RowOfCountsFields(line: string)
    ensures |RowOf(line)| == Count(Trim(line), ',') + 1
  {
    SplitCountsCommas(Trim(line));
  }

  /**
   * What every row of the reader looks like: comma-free fields, nothing trimmable
   * at the start of the first field or at the end of the last.
   */
  predicate IsReaderRow(r: seq<string>) {
    |r| >= 1 &&
    (forall k :: 0 <= k < |r| ==> CommaFree(r[k])) &&
    StartsClean(r[0]) && EndsClean(r[|r| - 1])
  }

  lemma RowOfIsReaderRow(line: string)
    ensures IsReaderRow(RowOf(line))
  {
    var t := Trim(line);
    var r := Split(t);
    SplitFieldsAreCommaFree(t);
    forall k | 0 <= k < |r|
      ensures CommaFree(r[k])
    {
      assert r[k] in r;
    }
    SplitFirstField(t);
    SplitLastField(t);
    PrefixStartsClean(t, r[0]);
    SuffixEndsClean(t, r[|r| - 1]);
  }

  /** A prefix of a string that starts clean starts clean. */
  lemma PrefixStartsClean(t: string, f: string)
    requires StartsClean(t) && |f| <= |t| && f == t[..|f|]
    ensures StartsClean(f)
  {
    if f != [] {
      assert f[0] == t[0];
    }
  }

  /** A suffix of a string that ends clean ends clean. */
  lemma SuffixEndsClean(t: string, f: string)
    requires EndsClean(t) && |f| <= |t| && f == t[|t| - |f|..]
    ensures EndsClean(f)
  {
    if f != [] {
      assert f[|f| - 1] == t[|t| - 1];
    }
  }

  /** The converse: a reader row of two or more fields, written back with commas, is read as itself. */
  lemma JoinedRowReadsBack(fields: seq<string>)
    requires |fields| >= 2 && IsReaderRow(fields)
    ensures !IsBlankLine(Join(fields)) && RowOf(Join(fields)) == fields
  {
    var line := Join(fields);
    var first, last := fields[0], fields[|fields| - 1];
    JoinEdges(fields);
    assert HasCleanEdges(line) by {
      if first != [] {
        assert line[0] == line[..|first|][0];
      }
      if last != [] {
        assert line[|line| - 1] == line[|line| - |last|..][|last| - 1];
      }
    }
    TrimKeepsCleanString(line);
    SplitOfJoin(fields);
  }

  lemma {:induction false} CsvRowsAreReaderRows(lines: seq<string>)
    ensures forall r :: r in CsvRows(lines) ==> IsReaderRow(r)
  {
    if lines != [] {
      CsvRowsAreReaderRows(lines[..|lines| - 1]);
      RowOfIsReaderRow(lines[|lines| - 1]);
    }
  }

  lemma ReadRowsAreReaderRows(file: TextFile, name: string, skipHeader: bool)
    requires ReadRows(file, name, skipHeader).Success?
    ensures forall r :: r in ReadRows(file, name, skipHeader).value ==> IsReaderRow(r)
  {
    CsvRowsAreReaderRows(Body(file.value, skipHeader));
  }
}
