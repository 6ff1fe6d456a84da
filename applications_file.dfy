/**
 * applications.csv: the header test, how a line becomes an `Application`, the
 * line `appendApplication` adds, and the whole file `writeApplicationsToFile`
 * writes. A file is the sequence of its lines.
 */
module ApplicationsFile {
  import opened Wrappers
  import opened JavaText
  import opened Calendar
  import opened Entities
  import opened Csv
  import opened Loading
  import opened Sequences

  /** The header every rewrite and every new file starts with. */
  const Header: string := "job_id,candidate_id,applied_at,grade"

  /** `fileHeaderHasGrade`, which is also the `hasGrade` test of `loadApplications`. */
  predicate HeaderHasGrade(lines: seq<string>) {
    |lines| > 0 && Contains(Lower(lines[0]), "grade")
  }

  /** A file that starts with the fixed header has the grade column. */
  lemma HeaderNamesGrade(rest: seq<string>)
    ensures HeaderHasGrade([Header] + rest)
  {
    var h := Lower(Header);
    assert h[31..36] == "grade" by {
      forall k | 31 <= k < 36
        ensures h[k] == "grade"[k - 31]
      {
        assert Header[k] == "grade"[k - 31];
      }
    }
    assert OccursAt(h, "grade", 31);
  }

  // ----- reading -----

  /** An applied-at field: blank means no time, anything else must be a `LocalDateTime`. */
  function ParseTimestamp(s: string): Result<Option<Timestamp>, LoadError> {
    if IsBlank(s) then Success(None)
    else match ParseDateTime(s)
      case Some(t) => Success(Some(t))
      case None => Failure(BadTimestamp(s))
  }

  /**
   * One row of applications.csv. The candidate id is required; the time is read
   * from a third field when there is one; the grade only when the header names
   * it and the row has a fourth field.
   */
  function DecodeApplication(parts: seq<string>, hasGrade: bool): Result<Application, LoadError> {
    if |parts| < 2 then Failure(MissingField(|parts|))
    else
      var appliedAt :- if |parts| > 2 then ParseTimestamp(parts[2]) else Success(None);
      var grade := if hasGrade && |parts| > 3 then parts[3] else "";
      Success(NewApplication(parts[0], parts[1], appliedAt, Some(grade)))
  }

  function ApplicationDecoder(hasGrade: bool): seq<string> -> Result<Application, LoadError> {
    parts => DecodeApplication(parts, hasGrade)
  }

  /** `loadApplications`: nothing from an empty file, else one application per non-blank line after the first. */
  function ApplicationsFromLines(lines: seq<string>): Result<seq<Application>, LoadError> {
    if lines == [] then Success([])
    else DecodeAll(CsvRows(lines[1..]), ApplicationDecoder(HeaderHasGrade(lines)))
  }

  /** A file whose header does not name the grade column loads with every grade empty. */
  lemma LegacyFileLoadsEmptyGrades(lines: seq<string>)
    requires !HeaderHasGrade(lines) && ApplicationsFromLines(lines).Success?
    ensures forall a :: a in ApplicationsFromLines(lines).value ==> a.grade == ""
  {
    if lines != [] {
      var rows := CsvRows(lines[1..]);
      var apps := ApplicationsFromLines(lines).value;
      DecodeAllSucceeds(rows, ApplicationDecoder(false));
      forall a | a in apps
        ensures a.grade == ""
      {
        var i :| 0 <= i < |apps| && apps[i] == a;
        assert DecodeApplication(rows[i], false) == Success(a);
      }
    }
  }

  // ----- writing -----

  function TimestampText(t: Option<Timestamp>): string {
    match t
    case None => ""
    case Some(v) => RenderDateTime(v)
  }

  /** The fields of a rewritten line, in column order; an absent applied-at is written as "". */
  function ApplicationFields(a: Application): seq<string> {
    [a.jobId, a.candidateId, TimestampText(a.appliedAt), a.grade]
  }

  /** One line of a rewritten file: the fields with commas between them. */
  function RenderApplication(a: Application): string {
    Join(ApplicationFields(a))
  }

  /** The line as `writeApplicationsToFile` puts it together. */
  lemma RenderApplicationIsCommaSeparated(a: Application)
    ensures RenderApplication(a) == a.jobId + "," + a.candidateId + "," + TimestampText(a.appliedAt) + "," + a.grade
  {
    JoinFour(a.jobId, a.candidateId, TimestampText(a.appliedAt), a.grade);
  }

  /** The lines of the applications, in list order. */
  function RenderedLines(apps: seq<Application>): (lines: seq<string>)
    ensures |lines| == |apps|
  {
    if apps == [] then []
    else RenderedLines(apps[..|apps| - 1]) + [RenderApplication(apps[|apps| - 1])]
  }

  lemma RenderedLinesStep(apps: seq<Application>, i: nat)
    requires i < |apps|
    ensures RenderedLines(apps[..i + 1]) == RenderedLines(apps[..i]) + [RenderApplication(apps[i])]
  {
    assert apps[..i + 1][..i] == apps[..i];
  }

  /** What `writeApplicationsToFile` leaves in the file: the header, then one line per application. */
  function RewrittenFile(apps: seq<Application>): seq<string> {
    [Header] + RenderedLines(apps)
  }

  /** The line `appendApplication` adds: a trailing comma (an empty grade) when the header names a grade column. */
  function AppendedLine(lines: seq<string>, jobId: string, candidateId: string, when: Timestamp): string {
    jobId + "," + candidateId + "," + RenderDateTime(when) + (if HeaderHasGrade(lines) then "," else "")
  }

  /** Neither a line feed nor a carriage return: the text stays on one line of the file. */
  predicate NoLineBreak(s: string) {
    '\n' !in s && '\r' !in s
  }

  /**
   * An application whose line reads back as itself: no field holds a comma or a line
   * break, the job id does not start and the grade does not end with anything `trim`
   * removes.
   */
  predicate Storable(a: Application) {
    CommaFree(a.jobId) && StartsClean(a.jobId) && NoLineBreak(a.jobId) &&
    CommaFree(a.candidateId) && NoLineBreak(a.candidateId) &&
    CommaFree(a.grade) && EndsClean(a.grade) && NoLineBreak(a.grade)
  }

  /** A time field as written: either nothing or a plain rendered date-time. */
  lemma TimestampTextIsPlain(t: Option<Timestamp>)
    ensures CommaFree(TimestampText(t)) && EndsClean(TimestampText(t))
    ensures t.None? <==> IsBlank(TimestampText(t))
    ensures ParseTimestamp(TimestampText(t)) == Success(t)
  {
    if t.Some? {
      RenderedDateTimeIsPlain(t.value);
      ParseRenderDateTime(t.value);
    }
  }

  /** Three comma-free fields, the first clean at its start and the last at its end, make a reader row. */
  lemma ThreeFieldsAreReaderRow(a: string, b: string, c: string)
    requires CommaFree(a) && CommaFree(b) && CommaFree(c) && StartsClean(a) && EndsClean(c)
    ensures IsReaderRow([a, b, c])
  {
  }

  /** The same for four fields. */
  lemma FourFieldsAreReaderRow(a: string, b: string, c: string, d: string)
    requires CommaFree(a) && CommaFree(b) && CommaFree(c) && CommaFree(d) && StartsClean(a) && EndsClean(d)
    ensures IsReaderRow([a, b, c, d])
  {
  }

  /** A row of three or four fields whose third field reads as `t` decodes field by field. */
  lemma DecodeFullRow(fields: seq<string>, hasGrade: bool, t: Option<Timestamp>)
    requires 3 <= |fields| <= 4 && ParseTimestamp(fields[2]) == Success(t)
    ensures DecodeApplication(fields, hasGrade) ==
      Success(Application(fields[0], fields[1], t, if hasGrade && |fields| == 4 then fields[3] else ""))
  {
  }

  /** A rendered storable application is one non-blank line of four fields that decodes back to it. */
  lemma RenderedLineReadsBack(a: Application)
    requires Storable(a)
    ensures var line := RenderApplication(a);
      !IsBlankLine(line) && RowOf(line) == ApplicationFields(a) &&
      DecodeApplication(RowOf(line), true) == Success(a)
  {
    var fields := ApplicationFields(a);
    TimestampTextIsPlain(a.appliedAt);
    FourFieldsAreReaderRow(a.jobId, a.candidateId, TimestampText(a.appliedAt), a.grade);
    JoinedRowReadsBack(fields);
    DecodeFullRow(fields, true, a.appliedAt);
  }

  /** The main round trip: loading a rewritten file gives back the same list. */
  lemma ReloadRewritten(apps: seq<Application>)
    requires forall a :: a in apps ==> Storable(a)
    ensures ApplicationsFromLines(RewrittenFile(apps)) == Success(apps)
  {
    HeaderNamesGrade(RenderedLines(apps));
    assert RewrittenFile(apps)[1..] == RenderedLines(apps);
    RenderedLinesReadBack(apps);
  }

  lemma {:induction false} RenderedLinesReadBack(apps: seq<Application>)
    requires forall i :: 0 <= i < |apps| ==> Storable(apps[i])
    ensures DecodeAll(CsvRows(RenderedLines(apps)), ApplicationDecoder(true)) == Success(apps)
  {
    if apps != [] {
      RenderedLinesReadBack(apps[..|apps| - 1]);
      ReadBackStep(apps);
    }
  }

  /** When the lines of all but the last application read back, so do the lines of all of them. */
  lemma ReadBackStep(apps: seq<Application>)
    requires apps != [] && Storable(apps[|apps| - 1])
    requires DecodeAll(CsvRows(RenderedLines(apps[..|apps| - 1])), ApplicationDecoder(true)) == Success(apps[..|apps| - 1])
    ensures DecodeAll(CsvRows(RenderedLines(apps)), ApplicationDecoder(true)) == Success(apps)
  {
    var init, x := apps[..|apps| - 1], apps[|apps| - 1];
    InitLast(apps);
    var lines, line := RenderedLines(init), RenderApplication(x);
    assert RenderedLines(apps) == lines + [line];
    RenderedLineReadsBack(x);
    CsvRowsSnoc(lines, line);
    assert ApplicationDecoder(true)(RowOf(line)) == Success(x);
    DecodeAllSnoc(CsvRows(lines), RowOf(line), ApplicationDecoder(true));
  }

  /** The rewrite always has the grade column, so a legacy three-column file is upgraded. */
  lemma RewriteUpgradesLegacyFile(lines: seq<string>, apps: seq<Application>)
    requires ApplicationsFromLines(lines) == Success(apps) && !HeaderHasGrade(lines)
    ensures HeaderHasGrade(RewrittenFile(apps))
    ensures forall a :: a in apps ==> a.grade == ""
  {
    HeaderNamesGrade(RenderedLines(apps));
    LegacyFileLoadsEmptyGrades(lines);
  }

  /** The fields of the line `appendApplication` adds: a fourth, empty one when the header names a grade column. */
  function AppendedFields(lines: seq<string>, jobId: string, candidateId: string, when: Timestamp): seq<string> {
    if HeaderHasGrade(lines) then [jobId, candidateId, RenderDateTime(when), ""]
    else [jobId, candidateId, RenderDateTime(when)]
  }

  lemma AppendedLineIsJoin(lines: seq<string>, jobId: string, candidateId: string, when: Timestamp)
    ensures AppendedLine(lines, jobId, candidateId, when) == Join(AppendedFields(lines, jobId, candidateId, when))
  {
    var ts := RenderDateTime(when);
    if HeaderHasGrade(lines) {
      JoinFour(jobId, candidateId, ts, "");
      var t := jobId + "," + candidateId + "," + ts + ",";
      assert t + "" == t;
    } else {
      JoinThree(jobId, candidateId, ts);
      var t := jobId + "," + candidateId + "," + ts;
      assert t + "" == t;
    }
  }

  /** The line added for a job id and candidate id the loaders produced reads back as the new application. */
  lemma AppendedLineReadsBack(lines: seq<string>, jobId: string, candidateId: string, when: Timestamp)
    requires CommaFree(jobId) && StartsClean(jobId) && CommaFree(candidateId)
    ensures var line := AppendedLine(lines, jobId, candidateId, when);
      !IsBlankLine(line) &&
      DecodeApplication(RowOf(line), HeaderHasGrade(lines)) == Success(NewApplication(jobId, candidateId, Some(when), Some("")))
  {
    var fields := AppendedFields(lines, jobId, candidateId, when);
    var ts := RenderDateTime(when);
    TimestampTextIsPlain(Some(when));
    assert TimestampText(Some(when)) == ts;
    AppendedLineIsJoin(lines, jobId, candidateId, when);
    if HeaderHasGrade(lines) {
      FourFieldsAreReaderRow(jobId, candidateId, ts, "");
    } else {
      ThreeFieldsAreReaderRow(jobId, candidateId, ts);
    }
    JoinedRowReadsBack(fields);
    DecodeFullRow(fields, HeaderHasGrade(lines), Some(when));
  }

  /** Appending keeps the file and the list in step: reloading gives the list with the new application at the end. */
  lemma ReloadAfterAppend(lines: seq<string>, apps: seq<Application>, jobId: string, candidateId: string, when: Timestamp)
    requires lines != [] && ApplicationsFromLines(lines) == Success(apps)
    requires CommaFree(jobId) && StartsClean(jobId) && CommaFree(candidateId)
    ensures ApplicationsFromLines(lines + [AppendedLine(lines, jobId, candidateId, when)]) ==
      Success(apps + [NewApplication(jobId, candidateId, Some(when), Some(""))])
  {
    var line := AppendedLine(lines, jobId, candidateId, when);
    var decode := ApplicationDecoder(HeaderHasGrade(lines));
    TailOfSnoc(lines, line);
    AppendedLineReadsBack(lines, jobId, candidateId, when);
    assert HeaderHasGrade(lines + [line]) == HeaderHasGrade(lines);
    CsvRowsSnoc(lines[1..], line);
    assert decode(RowOf(line)) == Success(NewApplication(jobId, candidateId, Some(when), Some("")));
    DecodeAllSnoc(CsvRows(lines[1..]), RowOf(line), decode);
  }

  // ----- creating the file -----

  /** `ensureApplicationsFile` as written: only a missing file is created, with the header. */
  function EnsureApplicationsFileAsWritten(file: TextFile): (lines: seq<string>)
    ensures file.None? ==> lines == [Header]
    ensures file.Some? ==> lines == file.value
  {
    match file
    case None => [Header]
    case Some(lines) => lines
  }

  /**
   * On an existing but empty file the header test fails, so the first application is
   * appended without a header and becomes the header on the next load: it is lost.
   */
  lemma EmptyFileLosesFirstApplication(jobId: string, candidateId: string, when: Timestamp)
    ensures var lines := EnsureApplicationsFileAsWritten(Some([]));
      var after := lines + [AppendedLine(lines, jobId, candidateId, when)];
      ApplicationsFromLines(lines) == Success([]) && ApplicationsFromLines(after) == Success([])
  {
    var lines := EnsureApplicationsFileAsWritten(Some([]));
    var after := lines + [AppendedLine(lines, jobId, candidateId, when)];
    assert after[1..] == [];
  }

  /** `ensureApplicationsFile` as intended: a missing or empty file gets the header. */
  function EnsureApplicationsFile(file: TextFile): (lines: seq<string>)
    ensures lines != []
    ensures file.None? || file.value == [] ==> lines == [Header]
    ensures file.Some? && file.value != [] ==> lines == file.value
  {
    match file
    case None => [Header]
    case Some(lines) => if lines == [] then [Header] else lines
  }

  /**
   * With the header written for an empty file too, the file loads as before and the
   * first append reads back: no application is lost.
   */
  lemma EnsuredFileKeepsAppends(file: TextFile, jobId: string, candidateId: string, when: Timestamp)
    requires file.Some? ==> ApplicationsFromLines(file.value).Success?
    requires CommaFree(jobId) && StartsClean(jobId) && CommaFree(candidateId)
    ensures var lines := EnsureApplicationsFile(file);
      var apps := if file.None? then [] else ApplicationsFromLines(file.value).value;
      ApplicationsFromLines(lines) == Success(apps) &&
      ApplicationsFromLines(lines + [AppendedLine(lines, jobId, candidateId, when)]) ==
        Success(apps + [NewApplication(jobId, candidateId, Some(when), Some(""))])
  {
    var lines := EnsureApplicationsFile(file);
    var apps := if file.None? then [] else ApplicationsFromLines(file.value).value;
    if file.None? || file.value == [] {
      assert lines[1..] == [];
    }
    ReloadAfterAppend(lines, apps, jobId, candidateId, when);
  }
}
