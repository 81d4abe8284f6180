/**
 The DHHR Board of Review reports: for each fiscal year's PDF report, the table rows tabula
 extracts are cleaned up and written to `board_of_review_<year>.csv`, under the header of that
 year's layout (the reports before fiscal year 2016 split the "withdrawn" column in two).
 */
module BoardOfReview {
  import opened Wrappers
  import opened Seqs
  import Text
  import Csv

  /** A cell of a tabula JSON table; only its `text` is used. */
  datatype Cell = Cell(text: string)

  /** A table row: its cells, left to right. */
  type Row = seq<Cell>

  /** A table tabula extracted from a page: its `data` rows, top to bottom. */
  datatype Table = Table(data: seq<Row>)

  /** A fiscal year and the file name of its report. */
  datatype Report = Report(year: int, url: string)

  /** The reports, newest first; the 2018 name has two spaces and the 2015 name another layout. */
  const URLS: seq<Report> := [
    Report(2020, "FY 2020 Report by Category and Decision.pdf"),
    Report(2019, "FY 2019 Report by Category and Decision.pdf"),
    Report(2018, "FY 2018  Report by Category and Decision.pdf"),
    Report(2017, "FY 2017 Report by Category and Decision.pdf"),
    Report(2016, "FY 2016 Report by Category and Decision.pdf"),
    Report(2015, "Report by Category and Decision FISCAL YEAR 2015.pdf"),
    Report(2014, "FY 2014 Report by Category and Decision.pdf")
  ]

  const HEADERS: seq<string> := [
    "year", "categories", "total_received", "total_adjudicated", "upheld", "reversed",
    "total_written", "abandoned", "withdrawn", "dismissed", "remanded", "invalid"
  ]

  const HEADERS_PRE_2016: seq<string> := [
    "year", "categories", "total_received", "total_adjudicated", "upheld", "reversed",
    "total_written", "abandoned", "withdrawn_claimant_favor", "withdrawn_no_change",
    "dismissed", "remanded", "invalid"
  ]

  /** The reports' fiscal years are all different, so each goes to a file of its own. */
  predicate DistinctYears(reports: seq<Report>) {
    forall i, j :: 0 <= i < j < |reports| ==> reports[i].year != reports[j].year
  }

  /**
   The header row: years after 2015 get the twelve columns of `HEADERS`, earlier years the
   thirteen of `HEADERS_PRE_2016`, where "withdrawn" is split into the claimant-favour and
   no-change withdrawals and every other column is the same.
   */
  function Header(year: int): (h: seq<string>)
    ensures |h| == if year > 2015 then 12 else 13
    ensures h[..2] == ["year", "categories"]
    ensures year > 2015 ==> h[8] == "withdrawn"
    ensures year <= 2015 ==>
      && h[..8] == HEADERS[..8]
      && h[8..10] == ["withdrawn_claimant_favor", "withdrawn_no_change"]
      && h[10..] == HEADERS[9..]
  {
    if year > 2015 then HEADERS else HEADERS_PRE_2016
  }

  /** The characters `re.sub("[^[0-9]", "", s)` keeps: the class holds `[` and the decimal digits. */
  predicate Kept(c: char) {
    ('0' <= c <= '9') || c == '['
  }

  /** The text holds only digits and `[`. */
  predicate AllKept(s: string) {
    forall k :: 0 <= k < |s| ==> Kept(s[k])
  }

  /** `re.sub("[^[0-9]", "", s)`: every character outside the class is removed. */
  function KeepDigits(s: string): string {
    Filter(s, Kept)
  }

  /**
   The cleaned text holds only digits and `[`, keeps those characters of the original in their
   order, and keeps every occurrence of each of them.
   */
  lemma KeepDigitsSpec(s: string)
    ensures AllKept(KeepDigits(s))
    ensures IsSubsequence(KeepDigits(s), s)
    ensures forall c :: c in s && Kept(c) ==> multiset(KeepDigits(s))[c] == multiset(s)[c]
  {
    FilterMembers(s, Kept);
    FilterIsSubsequence(s, Kept);
    FilterCounts(s, Kept);
  }

  /** Cleaning a cleaned text again changes nothing. */
  lemma KeepDigitsIdempotent(s: string)
    ensures KeepDigits(KeepDigits(s)) == KeepDigits(s)
  {
    FilterMembers(s, Kept);
    FilterAll(KeepDigits(s), Kept);
  }

  /** The text of a row's first cell is its category; a row without one is not a data row. */
  predicate HasCategory(row: Row) {
    row != [] && row[0].text != ""
  }

  /**
   One step of `[r for r in rows if r[0]['text'] != '']`: an empty row raises IndexError, a row
   with an empty first cell is dropped, any other row is kept.
   */
  function Select(row: Row): Result<Option<Row>> {
    if row == [] then Failure(IndexError)
    else if row[0].text != "" then Success(Some(row))
    else Success(None)
  }

  /** Without empty rows, the comprehension is the filter on a category. */
  lemma {:induction false} SelectIsFilter(rows: seq<Row>)
    requires forall k :: 0 <= k < |rows| ==> rows[k] != []
    ensures Collect(rows, Select) == Success(Filter(rows, HasCategory))
  {
    if rows != [] {
      var init := rows[..|rows| - 1];
      var last := rows[|rows| - 1];
      assert forall k :: 0 <= k < |init| ==> init[k] == rows[k];
      SelectIsFilter(init);
      assert last != [];
      if HasCategory(last) {
        assert Select(last) == Success(Some(last));
      } else {
        assert Select(last) == Success(None);
        assert Filter(init, HasCategory) + [] == Filter(init, HasCategory);
      }
    }
  }

  /** `table['data'][2:-1]`: the two header rows and the last (totals) row are dropped. */
  function Body(t: Table): seq<Row> {
    DropEnds(t.data, 2, 1)
  }

  /** The kept rows of one table: its body filtered on a category. */
  function KeptRows(t: Table): (r: Result<seq<Row>>)
    ensures r.Failure? ==> r.error == IndexError
    ensures r.Success? ==> forall k :: 0 <= k < |r.value| ==> HasCategory(r.value[k])
  {
    var c := Collect(Body(t), Select);
    CollectSpec(Body(t), Select);
    if c.Failure? then CollectFirstError(Body(t), Select); c
    else assert forall k :: 0 <= k < |c.value| ==> c.value[k] in c.value; c
  }

  /**
   A table's rows can be kept exactly when no row of its body is empty; they are then the rows of
   the body that have a category, in their order, and no others.
   */
  lemma KeptRowsSpec(t: Table)
    ensures KeptRows(t).Success? <==> forall k :: 0 <= k < |Body(t)| ==> Body(t)[k] != []
    ensures KeptRows(t).Success? ==> KeptRows(t).value == Filter(Body(t), HasCategory)
    ensures KeptRows(t).Success? ==> IsSubsequence(KeptRows(t).value, Body(t))
    ensures KeptRows(t).Success? ==>
      forall row :: row in KeptRows(t).value <==> row in Body(t) && HasCategory(row)
  {
    var body := Body(t);
    CollectSpec(body, Select);
    if KeptRows(t).Success? {
      assert forall k :: 0 <= k < |body| ==> Select(body[k]).Success?;
      SelectIsFilter(body);
      FilterIsSubsequence(body, HasCategory);
      FilterMembers(body, HasCategory);
      forall row | row in body && HasCategory(row)
        ensures row in KeptRows(t).value
      {
        var k :| 0 <= k < |body| && body[k] == row;
        assert Select(body[k]) == Success(Some(row));
      }
    }
  }

  /**
   The `try`/bare `except`: the rows of the second table when it exists and its rows can be kept,
   otherwise those of the first table, whose failure is not caught.
   */
  function Rows(tables: seq<Table>): (r: Result<seq<Row>>)
    ensures |tables| >= 2 && KeptRows(tables[1]).Success? ==> r == KeptRows(tables[1])
    ensures !(|tables| >= 2 && KeptRows(tables[1]).Success?) ==>
      r == if tables == [] then Failure(IndexError) else KeptRows(tables[0])
    ensures r.Success? <==>
      exists i :: 0 <= i < 2 && i < |tables| && KeptRows(tables[i]).Success?
    ensures r.Failure? ==> r.error == IndexError
    ensures r.Success? ==> forall k :: 0 <= k < |r.value| ==> HasCategory(r.value[k])
  {
    var second := if |tables| >= 2 then KeptRows(tables[1]) else Failure(IndexError);
    if second.Success? then second
    else if tables == [] then Failure(IndexError)
    else KeptRows(tables[0])
  }

  /** `[re.sub("[^[0-9]", "", str(r['text'])) for r in cells]`. */
  function CleanCells(cells: seq<Cell>): (vs: seq<Csv.Value>)
    ensures |vs| == |cells|
    ensures forall k :: 0 <= k < |cells| ==> vs[k] == Csv.Str(KeepDigits(cells[k].text))
  {
    seq(|cells|, k requires 0 <= k < |cells| => Csv.Str(KeepDigits(cells[k].text)))
  }

  /** `[year] + [category] + <the other cells cleaned>`: one field more than the row has cells. */
  function OutRow(year: int, row: Row): (vs: seq<Csv.Value>)
    requires row != []
    ensures |vs| == |row| + 1
    ensures vs[0] == Csv.Int(year) && vs[1] == Csv.Str(row[0].text)
    ensures forall k :: 1 <= k < |row| ==> vs[k + 1] == Csv.Str(KeepDigits(row[k].text))
  {
    [Csv.Int(year), Csv.Str(row[0].text)] + CleanCells(row[1..])
  }

  /** The cells `writerow` writes for a kept row. */
  function Line(year: int, row: Row): seq<string>
    requires row != []
  {
    Csv.RenderRow(OutRow(year, row))
  }

  /** The data rows of a year's file: one line per kept row, in order. */
  function Lines(year: int, rows: seq<Row>): (lines: seq<seq<string>>)
    requires forall k :: 0 <= k < |rows| ==> rows[k] != []
    ensures |lines| == |rows|
    ensures forall k :: 0 <= k < |rows| ==> lines[k] == Line(year, rows[k])
  {
    seq(|rows|, k requires 0 <= k < |rows| => Line(year, rows[k]))
  }

  /** The contents of a year's file: the header, then the data rows. */
  function ReportRows(year: int, rows: seq<Row>): (file: seq<seq<string>>)
    requires forall k :: 0 <= k < |rows| ==> rows[k] != []
    ensures |file| == |rows| + 1 && file[0] == Header(year)
    ensures forall k :: 0 <= k < |rows| ==> file[k + 1] == Line(year, rows[k])
  {
    var lines := Lines(year, rows);
    assert forall k :: 0 <= k < |rows| ==> ([Header(year)] + lines)[k + 1] == lines[k];
    [Header(year)] + lines
  }

  /** The data rows written so far grow by one line per kept row. */
  lemma LinesStep(year: int, rows: seq<Row>, i: nat)
    requires forall k :: 0 <= k < |rows| ==> rows[k] != []
    requires i < |rows|
    ensures Lines(year, rows[..i + 1]) == Lines(year, rows[..i]) + [Line(year, rows[i])]
  {
    var a := Lines(year, rows[..i + 1]);
    var b := Lines(year, rows[..i]) + [Line(year, rows[i])];
    forall j | 0 <= j < |a|
      ensures a[j] == b[j]
    {
      assert rows[..i + 1][j] == rows[j];
    }
  }

  /**
   A written data row starts with the year and the row's category, has one field for each of the
   row's other cells, and those fields hold only digits and `[`, so cleaning them again leaves
   them as they are.
   */
  predicate CleanLine(line: seq<string>, year: int, row: Row)
    requires row != []
  {
    && |line| == |row| + 1
    && line[0] == Text.Decimal(year)
    && line[1] == row[0].text
    && forall j :: 2 <= j < |line| ==> AllKept(line[j]) && KeepDigits(line[j]) == line[j]
  }

  /** What `writerow` writes for a kept row is a clean line. */
  lemma OutRowShape(year: int, row: Row)
    requires row != []
    ensures CleanLine(Line(year, row), year, row)
  {
    var line := Line(year, row);
    forall j | 2 <= j < |line|
      ensures AllKept(line[j]) && KeepDigits(line[j]) == line[j]
    {
      var cell := row[j - 1].text;
      assert line[j] == KeepDigits(cell);
      KeepDigitsIdempotent(cell);
      KeepDigitsSpec(cell);
    }
  }

  /** Every data row of a year's file is the clean line of the kept row at that position. */
  lemma ReportRowsShape(year: int, rows: seq<Row>)
    requires forall k :: 0 <= k < |rows| ==> rows[k] != []
    ensures forall k :: 0 <= k < |rows| ==> CleanLine(ReportRows(year, rows)[k + 1], year, rows[k])
  {
    forall k | 0 <= k < |rows|
      ensures CleanLine(ReportRows(year, rows)[k + 1], year, rows[k])
    {
      OutRowShape(year, rows[k]);
    }
  }

  /** The file a year's rows are written to. */
  function FileName(year: int): string {
    "board_of_review_" + Text.Decimal(year) + ".csv"
  }

  /** Different years are written to different files. */
  lemma FileNameInjective()
    ensures forall a, b :: FileName(a) == FileName(b) ==> a == b
  {
    forall a, b | FileName(a) == FileName(b)
      ensures a == b
    {
      var n := |"board_of_review_"|;
      assert Text.Decimal(a) == FileName(a)[n..|FileName(a)| - 4];
      assert Text.Decimal(b) == FileName(b)[n..|FileName(b)| - 4];
      Text.DecimalInjective(a, b);
    }
  }

  /** `tabula.read_pdf` of a report: its tables, or None when the file cannot be read. */
  type ReadPdf = string -> Option<seq<Table>>

  /** The files of the working directory, by name. */
  type Files = map<string, seq<seq<string>>>

  /** What one iteration of the loop produces: the year's file contents, or the exception raised. */
  function ReportFile(report: Report, readPdf: ReadPdf): (r: Result<seq<seq<string>>>)
    ensures r.Failure? <==>
      readPdf(report.url).None? || Rows(readPdf(report.url).value).Failure?
    ensures r.Failure? ==> r.error == if readPdf(report.url).None? then FileNotFound(report.url) else IndexError
    ensures r.Success? ==> r.value == ReportRows(report.year, Rows(readPdf(report.url).value).value)
  {
    match readPdf(report.url)
    case None => Failure(FileNotFound(report.url))
    case Some(tables) =>
      match Rows(tables)
      case Failure(e) => Failure(e)
      case Success(rows) => Success(ReportRows(report.year, rows))
  }

  /** What one iteration of the loop does with a report, as a function of the report. */
  type Step = Report -> Result<seq<seq<string>>>

  function Reader(readPdf: ReadPdf): Step {
    report => ReportFile(report, readPdf)
  }

  /**
   The loop over `reports`: each report's file, named by `target` from its year, is (over)written
   in turn, and the first exception ends the script, leaving the files written before it.
   */
  function Process(files: Files, reports: seq<Report>, step: Step, target: int -> string): (Outcome, Files) {
    if reports == [] then (Pass, files)
    else
      var prev := Process(files, reports[..|reports| - 1], step, target);
      var report := reports[|reports| - 1];
      if prev.0.Fail? then prev
      else
        match step(report)
        case Failure(e) => (Fail(e), prev.1)
        case Success(contents) => (Pass, prev.1[target(report.year) := contents])
  }

  /** One more iteration of the loop. */
  lemma ProcessStep(files: Files, reports: seq<Report>, i: nat, step: Step, target: int -> string)
    requires i < |reports|
    ensures var prev := Process(files, reports[..i], step, target);
      Process(files, reports[..i + 1], step, target) ==
        if prev.0.Fail? then prev
        else match step(reports[i])
          case Failure(e) => (Fail(e), prev.1)
          case Success(contents) => (Pass, prev.1[target(reports[i].year) := contents])
  {
    assert reports[..i + 1][..i] == reports[..i];
  }

  /** Once the loop has failed, the later reports change nothing. */
  lemma {:induction false} ProcessKeepsFailure(files: Files, reports: seq<Report>, n: nat, step: Step, target: int -> string)
    requires n <= |reports| && Process(files, reports[..n], step, target).0.Fail?
    ensures Process(files, reports, step, target) == Process(files, reports[..n], step, target)
    decreases |reports| - n
  {
    if n < |reports| {
      ProcessStep(files, reports, n, step, target);
      ProcessKeepsFailure(files, reports, n + 1, step, target);
    } else {
      assert reports[..n] == reports;
    }
  }

  /** The loop finishes exactly when every report's step succeeds. */
  lemma {:induction false} ProcessPassIff(files: Files, reports: seq<Report>, step: Step, target: int -> string)
    ensures Process(files, reports, step, target).0 == Pass <==>
      forall k :: 0 <= k < |reports| ==> step(reports[k]).Success?
  {
    if reports != [] {
      var n := |reports| - 1;
      var init := reports[..n];
      var prev := Process(files, init, step, target);
      ProcessPassIff(files, init, step, target);
      if prev.0.Fail? {
        assert Process(files, reports, step, target) == prev;
        var k :| 0 <= k < n && !step(init[k]).Success?;
        assert init[k] == reports[k];
      } else if step(reports[n]).Failure? {
        assert Process(files, reports, step, target).0.Fail?;
      } else {
        assert Process(files, reports, step, target).0 == Pass;
        forall k | 0 <= k < n
          ensures step(reports[k]).Success?
        {
          assert init[k] == reports[k];
        }
      }
    }
  }

  /**
   When the loop finishes, the years are distinct and different years name different files, each
   report's file holds what that report's step produced.
   */
  lemma {:induction false} ProcessWrites(files: Files, reports: seq<Report>, step: Step, target: int -> string)
    requires DistinctYears(reports)
    requires forall a, b :: target(a) == target(b) ==> a == b
    requires Process(files, reports, step, target).0 == Pass
    ensures forall k :: 0 <= k < |reports| ==>
      && step(reports[k]).Success?
      && target(reports[k].year) in Process(files, reports, step, target).1
      && Process(files, reports, step, target).1[target(reports[k].year)] == step(reports[k]).value
  {
    if reports != [] {
      var n := |reports| - 1;
      var init := reports[..n];
      var prev := Process(files, init, step, target);
      var last := reports[n];
      assert prev.0 == Pass;
      assert step(last).Success?;
      var after := prev.1[target(last.year) := step(last).value];
      assert Process(files, reports, step, target).1 == after;
      assert DistinctYears(init) by {
        assert forall k :: 0 <= k < n ==> init[k] == reports[k];
      }
      ProcessWrites(files, init, step, target);
      forall k | 0 <= k < |reports|
        ensures && step(reports[k]).Success?
                && target(reports[k].year) in after
                && after[target(reports[k].year)] == step(reports[k]).value
      {
        if k < n {
          assert init[k] == reports[k];
          assert target(reports[k].year) != target(last.year);
        }
      }
    }
  }

  /** A file that is not one of the reports' files is neither created nor changed nor removed. */
  lemma {:induction false} ProcessTouchesOnlyReportFiles(files: Files, reports: seq<Report>, step: Step, target: int -> string, name: string)
    requires forall k :: 0 <= k < |reports| ==> name != target(reports[k].year)
    ensures var after := Process(files, reports, step, target).1;
      && (name in after <==> name in files)
      && (name in files ==> after[name] == files[name])
  {
    if reports != [] {
      var init := reports[..|reports| - 1];
      assert forall k :: 0 <= k < |init| ==> init[k] == reports[k];
      ProcessTouchesOnlyReportFiles(files, init, step, target, name);
    }
  }

  /**
   When the loop stops on an exception, it is the exception of the first report whose step fails,
   and the files are as the reports before that one left them.
   */
  lemma {:induction false} ProcessFailure(files: Files, reports: seq<Report>, step: Step, target: int -> string)
    requires Process(files, reports, step, target).0.Fail?
    ensures exists k ::
      && 0 <= k < |reports|
      && step(reports[k]).Failure?
      && Process(files, reports, step, target) == (Fail(step(reports[k]).error), Process(files, reports[..k], step, target).1)
      && Process(files, reports[..k], step, target).0 == Pass
  {
    var n := |reports| - 1;
    var init := reports[..n];
    if Process(files, init, step, target).0.Fail? {
      ProcessFailure(files, init, step, target);
      var k :|
        && 0 <= k < |init|
        && step(init[k]).Failure?
        && Process(files, init, step, target) == (Fail(step(init[k]).error), Process(files, init[..k], step, target).1)
        && Process(files, init[..k], step, target).0 == Pass;
      assert init[..k] == reports[..k];
      assert init[k] == reports[k];
    } else {
      assert reports[..n] == init;
    }
  }

  /** The fiscal years of the reports are all different. */
  lemma UrlsDistinctYears()
    ensures DistinctYears(URLS)
  {
    forall i | 0 <= i < |URLS|
      ensures URLS[i].year == 2020 - i
    {
    }
  }

  /** The working directory the script writes its files into. */
  class Folder {
    var files: Files

    constructor (files: Files)
      ensures this.files == files
    {
      this.files := files;
    }

    /**
     The `with open(name, 'w')` block: the year's file `name` is truncated, the header written, then one
     row per kept row, in order.
     */
    method WriteReport(name: string, year: int, rows: seq<Row>)
      requires forall k :: 0 <= k < |rows| ==> rows[k] != []
      modifies this
      ensures files == old(files)[name := ReportRows(year, rows)]
    {
      files := files[name := []];
      files := files[name := files[name] + [Header(year)]];
      assert [Header(year)] + Lines(year, rows[..0]) == [] + [Header(year)];
      assert files == old(files)[name := [Header(year)] + Lines(year, rows[..0])];
      for i := 0 to |rows|
        invariant files == old(files)[name := [Header(year)] + Lines(year, rows[..i])]
      {
        var line := Csv.RenderRow(OutRow(year, rows[i]));
        LinesStep(year, rows, i);
        assert [Header(year)] + Lines(year, rows[..i + 1]) == [Header(year)] + Lines(year, rows[..i]) + [line];
        files := files[name := files[name] + [line]];
      }
      assert rows[..|rows|] == rows;
    }

    /**
     The loop over `reports`: each report is read and its year's file written in turn, until an
     exception ends it.
     */
    method ProcessReports(reports: seq<Report>, readPdf: ReadPdf) returns (outcome: Outcome)
      modifies this
      ensures (outcome, files) == Process(old(files), reports, Reader(readPdf), FileName)
    {
      ghost var before := files;
      for i := 0 to |reports|
        invariant Process(before, reports[..i], Reader(readPdf), FileName) == (Pass, files)
      {
        ProcessStep(before, reports, i, Reader(readPdf), FileName);
        var report := reports[i];
        var pdf := readPdf(report.url);
        if pdf.None? {
          ProcessKeepsFailure(before, reports, i + 1, Reader(readPdf), FileName);
          return Fail(FileNotFound(report.url));
        }
        var rows := Rows(pdf.value);
        if rows.Failure? {
          ProcessKeepsFailure(before, reports, i + 1, Reader(readPdf), FileName);
          return Fail(rows.error);
        }
        WriteReport(FileName(report.year), report.year, rows.value);
      }
      assert reports[..|reports|] == reports;
      outcome := Pass;
    }

    /** The script: the loop over `URLS`. */
    method Run(readPdf: ReadPdf) returns (outcome: Outcome)
      modifies this
      ensures (outcome, files) == Process(old(files), URLS, Reader(readPdf), FileName)
    {
      outcome := ProcessReports(URLS, readPdf);
    }
  }
}
