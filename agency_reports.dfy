/**
 The West Virginia Legislature agency-reports scraper: it loads the report urls already saved in
 the all-reports file, reads the report listing of every year in a range, keeps the reports whose
 url is new, writes them to the new-reports file and appends them to the all-reports file.
 The listing pages arrive already parsed, as the cells and first link of each table row.
 */
module AgencyReports {
  import opened Wrappers
  import opened Seqs
  import Text
  import Csv
  import Web

  const BASE_URL: string := "http://www.wvlegislature.gov"
  /** The columns of both report files, in the order `ToList` writes them. */
  const HEADER: seq<string> := ["agency", "title", "year", "url"]
  /** The url cell of a listing entry without a report; never a key. */
  const NO_REPORT: string := "No Report"
  const DEFAULT_START_YEAR: int := 2001
  const DEFAULT_END_YEAR: int := 2025

  datatype AgencyReport = AgencyReport(agency: string, title: string, year: string, url: string)

  /** The CSV row of a report: its four fields, in header order. */
  function ToList(r: AgencyReport): (vs: seq<Csv.Value>)
    ensures |vs| == |HEADER|
    ensures Csv.RenderRow(vs) == [r.agency, r.title, r.year, r.url]
  {
    Csv.Strs([r.agency, r.title, r.year, r.url])
  }

  /** A row written by `ToList` under `HEADER` reads back, column by column, as the report's fields. */
  lemma ToListReadsBack(r: AgencyReport)
    ensures var row := Csv.RenderRow(ToList(r));
      && Csv.Field(HEADER, row, "agency") == Some(r.agency)
      && Csv.Field(HEADER, row, "title") == Some(r.title)
      && Csv.Field(HEADER, row, "year") == Some(r.year)
      && Csv.Field(HEADER, row, "url") == Some(r.url)
  {
    assert Csv.LastIndex(HEADER, "url") == 3;
    assert Csv.LastIndex(HEADER, "year") == 2;
    assert Csv.LastIndex(HEADER, "title") == 1;
    assert Csv.LastIndex(HEADER, "agency") == 0;
  }

  /** The rows `save_reports` writes for the reports, one per report, in order. */
  function ReportRows(reports: seq<AgencyReport>): seq<seq<string>> {
    Csv.Rows(reports, ToList)
  }

  /** A `<tr>` of a year's listing: the text of each `<td>`, and the first `<a>` in the row, if any. */
  datatype TableRow = TableRow(cells: seq<string>, link: Option<Web.Anchor>)

  /**
   The report one listing row gives: only a row with at least three cells and a link that has an
   href gives one; its fields are the stripped first three cells and the site url joined to the href.
   */
  function ReportFromRow(row: TableRow): (r: Option<AgencyReport>)
    ensures r.Some? <==> |row.cells| >= 3 && row.link.Some? && row.link.value.href.Some?
    ensures r.Some? ==>
      && r.value.agency == Text.Strip(row.cells[0])
      && r.value.title == Text.Strip(row.cells[1])
      && r.value.year == Text.Strip(row.cells[2])
      && r.value.url == BASE_URL + row.link.value.href.value
  {
    if |row.cells| < 3 then None
    else
      match row.link
      case Some(Anchor(Some(href), _)) =>
        Some(AgencyReport(Text.Strip(row.cells[0]), Text.Strip(row.cells[1]), Text.Strip(row.cells[2]), BASE_URL + href))
      case _ => None
  }

  /** The reports of one year's listing: the rows between the header row and the footer row; none when the request fails. */
  function YearReports(response: Web.Fetch<seq<TableRow>>): seq<AgencyReport> {
    match response
    case RequestFailed => []
    case Fetched(trs) => MapSome(DropEnds(trs, 1, 1), ReportFromRow)
  }

  /** A year's reports are exactly those of its rows other than the first and the last. */
  lemma YearReportsFromRows(trs: seq<TableRow>)
    ensures forall r :: r in YearReports(Web.Fetched(trs)) <==>
      (exists k :: 1 <= k < |trs| - 1 && ReportFromRow(trs[k]) == Some(r))
  {
    InnerRowsMembers(trs, ReportFromRow);
  }

  /** What the rows between the first and the last give is what some such row gives. */
  lemma InnerRowsMembers<A, B>(trs: seq<A>, f: A -> Option<B>)
    ensures forall r :: r in MapSome(DropEnds(trs, 1, 1), f) <==>
      (exists k :: 1 <= k < |trs| - 1 && f(trs[k]) == Some(r))
  {
    var rows := DropEnds(trs, 1, 1);
    MapSomeMembers(rows, f);
    forall r | r in MapSome(rows, f)
      ensures exists k :: 1 <= k < |trs| - 1 && f(trs[k]) == Some(r)
    {
      var j :| 0 <= j < |rows| && f(rows[j]) == Some(r);
      assert f(trs[1 + j]) == Some(r);
    }
    forall r | exists k :: 1 <= k < |trs| - 1 && f(trs[k]) == Some(r)
      ensures r in MapSome(rows, f)
    {
      var k :| 1 <= k < |trs| - 1 && f(trs[k]) == Some(r);
      assert rows[k - 1] == trs[k];
    }
  }

  /** The reports each year's listing gives, by year. */
  function Listings(fetch: int -> Web.Fetch<seq<TableRow>>): int -> seq<AgencyReport> {
    year => YearReports(fetch(year))
  }

  /** `scrape_all_reports` as a value: the reports of the years `first` to `stop - 1`, year after year. */
  function ReportsForYears(listing: int -> seq<AgencyReport>, first: int, stop: int): seq<AgencyReport>
    decreases stop - first
  {
    if stop <= first then [] else ReportsForYears(listing, first, stop - 1) + listing(stop - 1)
  }

  /** The scraped reports come in year order: a range of years is the earlier part followed by the later part. */
  lemma {:induction false} ReportsForYearsSplit(listing: int -> seq<AgencyReport>, first: int, mid: int, stop: int)
    requires first <= mid <= stop
    ensures ReportsForYears(listing, first, stop) == ReportsForYears(listing, first, mid) + ReportsForYears(listing, mid, stop)
    decreases stop - mid
  {
    if mid < stop {
      ReportsForYearsSplit(listing, first, mid, stop - 1);
      var last := listing(stop - 1);
      assert ReportsForYears(listing, first, stop) == ReportsForYears(listing, first, stop - 1) + last;
      assert ReportsForYears(listing, mid, stop) == ReportsForYears(listing, mid, stop - 1) + last;
    }
  }

  /** A report is scraped exactly when some year of the range (end excluded) lists it. */
  lemma {:induction false} ReportsForYearsMembers(listing: int -> seq<AgencyReport>, first: int, stop: int)
    ensures forall r ::
      r in ReportsForYears(listing, first, stop) <==> exists y :: first <= y < stop && r in listing(y)
    decreases stop - first
  {
    if first < stop {
      ReportsForYearsMembers(listing, first, stop - 1);
    }
  }

  /** Every scraped url is the site url followed by an href, so it is neither empty nor the placeholder. */
  lemma ScrapedUrlsAreKeys(fetch: int -> Web.Fetch<seq<TableRow>>, first: int, stop: int)
    ensures forall r :: r in ReportsForYears(Listings(fetch), first, stop) ==> IsKey(Some(r.url))
  {
    ReportsForYearsMembers(Listings(fetch), first, stop);
    forall r | r in ReportsForYears(Listings(fetch), first, stop)
      ensures IsKey(Some(r.url))
    {
      var y :| first <= y < stop && r in YearReports(fetch(y));
      match fetch(y)
      case Fetched(trs) =>
        YearReportsFromRows(trs);
        var k :| 1 <= k < |trs| - 1 && ReportFromRow(trs[k]) == Some(r);
        assert |r.url| >= |BASE_URL|;
    }
  }

  /** The condition of the set comprehension in `load_existing_reports`: a url cell that is set, non-empty and not the placeholder. */
  predicate IsKey(cell: Option<string>) {
    cell.Some? && cell.value != "" && cell.value != NO_REPORT
  }

  /**
   The urls `load_existing_reports` collects from an existing file: every url cell that is a key.
   It fails with a KeyError exactly when some data row exists and the header has no url column.
   */
  function LoadUrls(file: seq<seq<string>>): (r: Result<set<string>>)
    ensures r.Failure? <==> Csv.DataRows(file) != [] && "url" !in file[0]
    ensures r.Failure? ==> r.error == KeyError("url")
    ensures r.Success? ==> forall u :: u in r.value <==>
      (Some(u) in Csv.Column(file, "url").value && u != "" && u != NO_REPORT)
  {
    match Csv.Column(file, "url")
    case Failure(e) => Failure(e)
    case Success(cells) => Success(set c | c in cells && IsKey(c) :: c.value)
  }

  /**
   The key set after `load_existing_reports`: a missing file leaves the keys as they were (it is
   created holding only the header); an existing one replaces them with its urls.
   */
  function Loaded(present: bool, rows: seq<seq<string>>, before: set<string>): Result<set<string>> {
    if present then LoadUrls(rows) else Success(before)
  }

  /** The all-reports file after `load_existing_reports` succeeds: as it was, or just the header. */
  function LoadedRows(present: bool, rows: seq<seq<string>>): seq<seq<string>> {
    if present then rows else [HEADER]
  }

  /** A freshly created file holds no url. */
  lemma HeaderOnlyHasNoUrls()
    ensures LoadUrls([HEADER]) == Success({})
  {
    assert Csv.DataRows([HEADER]) == [];
    assert Csv.Column([HEADER], "url") == Success([]);
    assert LoadUrls([HEADER]).value == {};
  }

  /** The urls of `reports` that are not already known: `new_urls` in `filter_new_reports`. */
  function NewUrls(reports: seq<AgencyReport>, previous: set<string>): set<string> {
    (set r | r in reports :: r.url) - previous
  }

  function UrlIn(urls: set<string>): AgencyReport -> bool {
    (r: AgencyReport) => r.url in urls
  }

  function UrlNotIn(urls: set<string>): AgencyReport -> bool {
    (r: AgencyReport) => r.url !in urls
  }

  /** `filter_new_reports`: the reports whose url is among the new urls. */
  function NewReports(reports: seq<AgencyReport>, previous: set<string>): seq<AgencyReport> {
    Filter(reports, UrlIn(NewUrls(reports, previous)))
  }

  /** Going through the set of new urls is the same as keeping each report whose url is not known. */
  lemma NewReportsIsUrlFilter(reports: seq<AgencyReport>, previous: set<string>)
    ensures NewReports(reports, previous) == Filter(reports, UrlNotIn(previous))
  {
    forall r | r in reports
      ensures UrlIn(NewUrls(reports, previous))(r) == UrlNotIn(previous)(r)
    {
      assert r.url in (set x | x in reports :: x.url);
    }
    FilterCongruent(reports, UrlIn(NewUrls(reports, previous)), UrlNotIn(previous));
  }

  /**
   The new reports keep the order of the scraped ones, none has a known url, and every scraped
   report with an unknown url is kept, as many times as it was scraped.
   */
  lemma NewReportsSpec(reports: seq<AgencyReport>, previous: set<string>)
    ensures IsSubsequence(NewReports(reports, previous), reports)
    ensures forall r :: r in NewReports(reports, previous) <==> r in reports && r.url !in previous
    ensures forall r :: r in reports ==>
      multiset(NewReports(reports, previous))[r] == if r.url in previous then 0 else multiset(reports)[r]
  {
    NewReportsIsUrlFilter(reports, previous);
    FilterIsSubsequence(reports, UrlNotIn(previous));
    FilterMembers(reports, UrlNotIn(previous));
    FilterCounts(reports, UrlNotIn(previous));
    forall r | r in reports && r.url !in previous
      ensures r in NewReports(reports, previous)
    {
      assert multiset(NewReports(reports, previous))[r] > 0;
    }
  }

  /** With no known urls every scraped report is new. */
  lemma NewReportsNoPrevious(reports: seq<AgencyReport>)
    ensures NewReports(reports, {}) == reports
  {
    NewReportsIsUrlFilter(reports, {});
    FilterAll(reports, UrlNotIn({}));
  }

  /** Appending report rows to a file whose header has a url column forgets no url. */
  lemma KnownUrlsStayKnown(rows: seq<seq<string>>, added: seq<AgencyReport>, u: string)
    requires rows != [] && "url" in rows[0]
    requires LoadUrls(rows).Success? && u in LoadUrls(rows).value
    ensures LoadUrls(rows + ReportRows(added)).Success? && u in LoadUrls(rows + ReportRows(added)).value
  {
    Csv.ColumnKeepsCells(rows, ReportRows(added), "url");
  }

  /** After appending the rows of reports with key urls to a file under `HEADER`, every appended url is known. */
  lemma AppendedUrlsAreKnown(rows: seq<seq<string>>, added: seq<AgencyReport>, k: nat)
    requires rows != [] && rows[0] == HEADER
    requires k < |added| && IsKey(Some(added[k].url))
    ensures LoadUrls(rows + ReportRows(added)).Success? && added[k].url in LoadUrls(rows + ReportRows(added)).value
  {
    ToListReadsBack(added[k]);
    Csv.ColumnHasAppendedField(rows, ReportRows(added), "url", k);
  }

  /** A scraped report with a key url is known once the new reports are appended to a file under `HEADER`. */
  lemma ScrapedUrlKnownAfterAppend(rows: seq<seq<string>>, scraped: seq<AgencyReport>, r: AgencyReport)
    requires rows != [] && rows[0] == HEADER
    requires r in scraped && IsKey(Some(r.url))
    ensures LoadUrls(rows).Success?
    ensures var after := rows + ReportRows(NewReports(scraped, LoadUrls(rows).value));
      LoadUrls(after).Success? && r.url in LoadUrls(after).value
  {
    var keys := LoadUrls(rows).value;
    var added := NewReports(scraped, keys);
    if r.url in keys {
      KnownUrlsStayKnown(rows, added, r.url);
    } else {
      NewReportsSpec(scraped, keys);
      var k :| 0 <= k < |added| && added[k] == r;
      AppendedUrlsAreKnown(rows, added, k);
    }
  }

  /**
   Running the scraper a second time over the same listings adds nothing: once the first run has
   appended its new reports to a file it created (or one with the same header), reloading the
   urls knows every scraped url.
   */
  lemma SecondRunAddsNothing(fetch: int -> Web.Fetch<seq<TableRow>>, first: int, stop: int, rows: seq<seq<string>>)
    requires rows != [] && rows[0] == HEADER
    ensures LoadUrls(rows).Success?
    ensures var scraped := ReportsForYears(Listings(fetch), first, stop);
      var after := rows + ReportRows(NewReports(scraped, LoadUrls(rows).value));
      LoadUrls(after).Success? && NewReports(scraped, LoadUrls(after).value) == []
  {
    var scraped := ReportsForYears(Listings(fetch), first, stop);
    var after := rows + ReportRows(NewReports(scraped, LoadUrls(rows).value));
    assert LoadUrls(after).Success? by {
      Csv.ColumnKeepsCells(rows, ReportRows(NewReports(scraped, LoadUrls(rows).value)), "url");
    }
    var keys2 := LoadUrls(after).value;
    ScrapedUrlsAreKeys(fetch, first, stop);
    forall r | r in scraped
      ensures r.url in keys2
    {
      ScrapedUrlKnownAfterAppend(rows, scraped, r);
    }
    NewReportsIsUrlFilter(scraped, keys2);
    FilterNone(scraped, UrlNotIn(keys2));
  }

  class AgencyReportsScraper {
    const startYear: int
    const endYear: int
    var previousUrls: set<string>
    /** `all_reports.csv` and `new_reports.csv`. */
    const allReports: Csv.CsvFile
    const newReports: Csv.CsvFile

    ghost predicate Valid()
      reads this, allReports, newReports
    {
      allReports != newReports && allReports.Valid() && newReports.Valid()
    }

    constructor (startYear: int, endYear: int, allReports: Csv.CsvFile, newReports: Csv.CsvFile)
      requires allReports != newReports && allReports.Valid() && newReports.Valid()
      ensures Valid()
      ensures this.startYear == startYear && this.endYear == endYear && previousUrls == {}
      ensures this.allReports == allReports && this.newReports == newReports
    {
      this.startYear := startYear;
      this.endYear := endYear;
      this.previousUrls := {};
      this.allReports := allReports;
      this.newReports := newReports;
    }

    /** `load_existing_reports`: create a missing file with the header, or read the urls of an existing one. */
    method LoadExistingReports() returns (outcome: Outcome)
      requires Valid()
      modifies this, allReports
      ensures Valid()
      ensures var loaded := Loaded(old(allReports.present), old(allReports.rows), old(previousUrls));
        && (outcome.Pass? <==> loaded.Success?)
        && (loaded.Failure? ==> outcome.error == loaded.error && previousUrls == old(previousUrls))
        && (loaded.Success? ==> previousUrls == loaded.value)
      ensures old(allReports.present) ==> unchanged(allReports)
      ensures !old(allReports.present) ==> allReports.present && allReports.rows == [HEADER]
    {
      if !allReports.present {
        allReports.WriteText(HEADER);
        return Pass;
      }
      match LoadUrls(allReports.rows)
      case Failure(e) =>
        outcome := Fail(e);
      case Success(urls) =>
        previousUrls := urls;
        outcome := Pass;
    }

    /** `fetch_reports_for_year`: the report of every listing row between the header and the footer that has one. */
    method FetchReportsForYear(response: Web.Fetch<seq<TableRow>>) returns (reports: seq<AgencyReport>)
      ensures reports == YearReports(response)
    {
      reports := [];
      if response.RequestFailed? {
        return;
      }
      var rows := DropEnds(response.body, 1, 1);
      for i := 0 to |rows|
        invariant reports == MapSome(rows[..i], ReportFromRow)
      {
        assert rows[..i + 1][..i] == rows[..i];
        var row := rows[i];
        if |row.cells| < 3 {
          continue;
        }
        var agency := Text.Strip(row.cells[0]);
        var title := Text.Strip(row.cells[1]);
        var year := Text.Strip(row.cells[2]);
        if row.link.Some? && row.link.value.href.Some? {
          reports := reports + [AgencyReport(agency, title, year, BASE_URL + row.link.value.href.value)];
        }
      }
      assert rows[..|rows|] == rows;
    }

    /** `scrape_all_reports`: the reports of every year from the start year up to, not including, the end year. */
    method ScrapeAllReports(fetch: int -> Web.Fetch<seq<TableRow>>) returns (all: seq<AgencyReport>)
      ensures all == ReportsForYears(Listings(fetch), startYear, endYear)
    {
      all := [];
      var year := startYear;
      while year < endYear
        invariant startYear <= year && (startYear < endYear ==> year <= endYear)
        invariant startYear >= endYear ==> year == startYear
        invariant all == ReportsForYears(Listings(fetch), startYear, year)
        decreases endYear - year
      {
        var reports := FetchReportsForYear(fetch(year));
        all := all + reports;
        year := year + 1;
      }
    }

    /**
     `save_reports`: nothing for no reports; otherwise open the file (truncating unless appending),
     write the header when not appending, then one row per report in order.
     */
    method SaveReports(reports: seq<AgencyReport>, file: Csv.CsvFile, append: bool)
      requires file.Valid()
      modifies file
      ensures file.Valid()
      ensures reports == [] ==> unchanged(file)
      ensures reports != [] ==>
        && file.present
        && file.rows == (if append then old(file.rows) else [HEADER]) + ReportRows(reports)
    {
      if reports == [] {
        return;
      }
      file.Open(append);
      if !append {
        file.WriteRow(Csv.Strs(HEADER));
      }
      ghost var start := file.rows;
      for i := 0 to |reports|
        invariant file.Valid() && file.present
        invariant file.rows == start + ReportRows(reports[..i])
      {
        file.WriteRow(ToList(reports[i]));
        assert ReportRows(reports[..i + 1]) == ReportRows(reports[..i]) + [Csv.RenderRow(ToList(reports[i]))];
      }
      assert reports[..|reports|] == reports;
    }

    /**
     `run`: load the known urls, scrape every year, keep the new reports, overwrite the new-reports
     file with them (when there are any) and append them to the all-reports file (when there are any).
     A KeyError while loading ends the run before anything else is written.
     */
    method Run(fetch: int -> Web.Fetch<seq<TableRow>>) returns (outcome: Outcome)
      requires Valid()
      modifies this, allReports, newReports
      ensures Valid()
      ensures var loaded := Loaded(old(allReports.present), old(allReports.rows), old(previousUrls));
        && (loaded.Failure? ==> outcome == Fail(loaded.error) && unchanged(allReports) && unchanged(newReports))
        && (loaded.Success? ==>
          var added := NewReports(ReportsForYears(Listings(fetch), startYear, endYear), loaded.value);
          && outcome == Pass
          && previousUrls == loaded.value
          && allReports.present
          && allReports.rows == LoadedRows(old(allReports.present), old(allReports.rows)) + ReportRows(added)
          && (added == [] ==> unchanged(newReports))
          && (added != [] ==> newReports.present && newReports.rows == [HEADER] + ReportRows(added)))
    {
      outcome := LoadExistingReports();
      if outcome.Fail? {
        return;
      }
      var all := ScrapeAllReports(fetch);
      var added := NewReports(all, previousUrls);
      SaveReports(added, newReports, false);
      if added != [] {
        SaveReports(added, allReports, true);
      }
    }
  }
}
