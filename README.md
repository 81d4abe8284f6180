# Incremental scrapers of wvu-projects, modelled in Dafny

The repository is a set of small Python jobs. Each one polls a West Virginia government or
university site, turns what it finds into flat records, and keeps a CSV file of what it has
seen. This project models the seven scripts that carry that logic. It proves what each one writes
and what it skips.

- `wv-legislature/agency_reports.py` (module `AgencyReports`): a class that
  - loads the known report URLs from `all_reports.csv`,
  - scrapes one listing table per year from `start_year` up to, but not including, `end_year`,
  - keeps the reports whose URL is not known,
  - writes them to `new_reports.csv` and appends them to `all_reports.csv`.
- `meeting-notices/scraper.py` (module `MeetingNotices`): a class that
  - loads the known notice ids,
  - parses one notice per link of the results table (id from the URL, date and time from the
    link text, agency, location, purpose and notes from the detail page),
  - appends the notices with a new id to `meeting_notices.csv`.
- `lobbying/models.py` (module `LobbyingModels`): the filing record, its CSV row, and the file
  name and path of its PDF.
- `lobbying/lobbying_filings.py` (module `LobbyingFilings`): a class that
  - builds the cycle page URL,
  - parses each `SiteCollectionDocuments` link into a filing,
  - overwrites `lobbying_filings.csv`,
  - downloads each PDF that is not yet in the `pdfs` folder.
- `lobbying/get_pdfs.py` (module `PdfDownloader`): a class that reads `lobbying_filings.csv`
  back and downloads the same PDFs.
- The download rule the two lobbying scripts share is module `PdfFolder`. Its `Folder` class
  holds the folder's files as a map from name to bytes.
- `crime-log/crime_log.py` (module `CrimeLog`): a script that
  - reads the known case ids,
  - builds one record per incident of the crime log page, dropping records equal to one
    already built,
  - appends the records with a new id to `crime_log.csv`.
- `dhhr/board_of_review.py` (module `BoardOfReview`): a script that, for each fiscal year,
  - takes the rows of a PDF table extract,
  - writes `board_of_review_<year>.csv` with the header of that year and one cleaned row per
    table row.

Shared modules:

- `Wrappers`: `Option`, `Result` and the Python exceptions that end a run.
- `Web`: a fetched response, or a `requests` failure; an `<a>` element.
- `Csv`:
  - a file is a `present` flag plus its rows of strings;
  - `csv.writer` rendering of `None` and `int`;
  - `csv.DictReader` column lookup.
- `Text`: the Python `str` operations used: `find`, `split`, `join`, `replace`, `strip`, `upper`,
  `str(int)`.
- `Seqs`: filters, dropping `None`s, the stop-at-first-exception loop, and dedup keeping the
  first occurrence.

## How to read the model

- **What the network and parsers provide.**
  - Network responses, BeautifulSoup trees, tabula extracts and `dateutil.parser.parse` are
    parameters.
  - A page arrives already parsed as a value: table rows with their cells and link, anchors, or
    incident paragraphs.
  - A fetch is `Fetched(body)` or `RequestFailed`.
- **Files.**
  - A CSV file is a `Csv.CsvFile` object whose methods open it in `w` or `a` mode and write rows.
  - A folder of PDFs is a map from file name to bytes.
- **How the classes are proved.**
  - Each Python class is a Dafny class with the same fields.
  - Each method is proved against a function of the old state, for example
    `Process`, `DownloadAll`, `NewReports`, `NewNotices` and `NewIncidentsOf`.
  - Lemmas state the properties of those functions: what is kept and in which order, what the
    file holds afterwards, and that a second run with the same input adds nothing.
- **Exceptions.**
  - An exception that ends the script is a `Failure(error)` or `Fail(error)` value.
  - An exception the script catches (a `None` from `parse_meeting_notice`, the bare `except` in
    `board_of_review.py`) is modelled as the branch it takes.

## Model

| member | source | states |
|---|---|---|
| AgencyReports.ToList | wv-legislature/agency_reports.py:31-33 | the row has the four header columns and is exactly agency, title, year, url |
| AgencyReports.ToListReadsBack | wv-legislature/agency_reports.py:31-33 | reading a written row back through the header `agency,title,year,url` gives each field under its own name |
| AgencyReports.ReportRows | wv-legislature/agency_reports.py:195-196 | `Csv.Rows` of the reports: one written row per report, in order, each the report's `to_list` |
| AgencyReports.ReportFromRow | wv-legislature/agency_reports.py:102-121 | a table row gives a report iff it has at least 3 cells and a link with an `href`; then agency, title and year are the stripped cells 0-2 and url is `BASE_URL + href` |
| AgencyReports.YearReports | wv-legislature/agency_reports.py:76-131 | no reports for a failed request; otherwise the reports of the rows between the first and the last; stated by `YearReportsFromRows` |
| AgencyReports.YearReportsFromRows | wv-legislature/agency_reports.py:98-124 | the reports of a fetched page are exactly those of the table rows other than the first and the last |
| AgencyReports.ReportsForYears | wv-legislature/agency_reports.py:133-143 | the yearly listings of `first..stop-1` concatenated in year order; stated by `ReportsForYearsSplit` and `ReportsForYearsMembers` |
| AgencyReports.ReportsForYearsSplit | wv-legislature/agency_reports.py:138-140 | scraping a year range is scraping its first part followed by its second part (the concatenation is in year order) |
| AgencyReports.ReportsForYearsMembers | wv-legislature/agency_reports.py:138-140 | a report is scraped iff it is in the listing of some year `first <= y < stop` (end exclusive) |
| AgencyReports.ScrapedUrlsAreKeys | wv-legislature/agency_reports.py:113 | every scraped url is non-empty and differs from `No Report`, so it can be loaded back as a key |
| AgencyReports.LoadUrls | wv-legislature/agency_reports.py:64-74 | loading fails with `KeyError('url')` iff there is a data row and no `url` column; otherwise the key set is exactly the url cells that are non-empty and not `No Report` |
| AgencyReports.HeaderOnlyHasNoUrls | wv-legislature/agency_reports.py:59-62 | the header-only file created for a missing CSV loads as the empty key set |
| AgencyReports.IsKey | wv-legislature/agency_reports.py:69 | the comprehension's condition: a url cell that is present, non-empty and not `No Report`; stated through `LoadUrls` and `ScrapedUrlsAreKeys` |
| AgencyReports.Loaded | wv-legislature/agency_reports.py:57-74 | a missing file leaves the known urls as they were, an existing one replaces them by its loaded keys; stated by `LoadExistingReports` |
| AgencyReports.NewReports | wv-legislature/agency_reports.py:145-165 | the reports whose url is not known, in order, duplicates kept; stated by `NewReportsSpec` and `NewReportsIsUrlFilter` |
| AgencyReports.NewReportsIsUrlFilter | wv-legislature/agency_reports.py:156-162 | the set-difference formulation equals filtering the batch by "url not known" |
| AgencyReports.NewReportsSpec | wv-legislature/agency_reports.py:145-165 | new reports are a subsequence of the batch; a report is kept iff its url is not known; duplicates of a kept report are all kept |
| AgencyReports.NewReportsNoPrevious | wv-legislature/agency_reports.py:156-162 | with no known urls the batch is returned unchanged |
| AgencyReports.KnownUrlsStayKnown | wv-legislature/agency_reports.py:195-196 | appending report rows under a header with a `url` column keeps every known url loadable |
| AgencyReports.AppendedUrlsAreKnown | wv-legislature/agency_reports.py:195-196 | every appended report's url is loaded back as a key |
| AgencyReports.ScrapedUrlKnownAfterAppend | wv-legislature/agency_reports.py:203-221 | after one run every scraped url is a known key |
| AgencyReports.SecondRunAddsNothing | wv-legislature/agency_reports.py:203-221 | a second run over the same listings finds no new reports |
| AgencyReports.AgencyReportsScraper.constructor | wv-legislature/agency_reports.py:44-55 | stores the year range and starts with no known urls |
| AgencyReports.AgencyReportsScraper.LoadExistingReports | wv-legislature/agency_reports.py:57-74 | a missing file is created holding only the header and the known set is unchanged; otherwise the known set becomes the loaded keys, or the `KeyError` is raised |
| AgencyReports.AgencyReportsScraper.FetchReportsForYear | wv-legislature/agency_reports.py:76-131 | the row loop returns the reports of the inner rows in order, and nothing on a request failure |
| AgencyReports.AgencyReportsScraper.ScrapeAllReports | wv-legislature/agency_reports.py:133-143 | the year loop returns the concatenation of the yearly results for `start_year..end_year-1` |
| AgencyReports.AgencyReportsScraper.SaveReports | wv-legislature/agency_reports.py:167-201 | no reports: file untouched; otherwise the file holds the old rows (append) or the header (overwrite), then one row per report in order |
| AgencyReports.AgencyReportsScraper.Run | wv-legislature/agency_reports.py:203-223 | after loading, `new_reports.csv` is header plus the new reports when there are any and is untouched otherwise; `all_reports.csv` gets exactly the new reports appended |
| MeetingNotices.NoCrLfIsNotContains | meeting-notices/scraper.py:39 | the `\r\n`-free predicate agrees with `'\r\n' not in s` |
| MeetingNotices.ReplaceCrLfLeavesNone | meeting-notices/scraper.py:39 | after `replace('\r\n', ' ')` no `\r\n` is left |
| MeetingNotices.ReplaceBySpaceKeepsNoCrLf | meeting-notices/scraper.py:39 | replacing by a space cannot create a `\r\n` |
| MeetingNotices.CleanLocation | meeting-notices/scraper.py:35-39 | the location validator: `\r\n` replaced by a space, double spaces by one, then stripped; its properties are stated by `CleanLocationSpec` |
| MeetingNotices.CleanLocationSpec | meeting-notices/scraper.py:35-39 | the cleaned location is no longer than its input, has no leading or trailing whitespace and contains no `\r\n` |
| MeetingNotices.LocationText | meeting-notices/scraper.py:120-121 | the location cell's `<pre>` text when it has a `<pre>`, otherwise the cell's own text; used by `ParsedNoticePageFields` |
| MeetingNotices.AgencyOf | meeting-notices/scraper.py:104-112 | four cases: no `<th>` gives `Unknown` and no subagency; a `<th>` without `<h2>` gives the heading's text and no subagency; with an `<h2>`, the agency is the text before its first `<br>` (or the whole `<h2>` text without one) and the subagency is the `<em>` texts joined by spaces, or none when there is no `<em>`; used by `ParsedNoticePageFields` |
| MeetingNotices.AfterLabel | meeting-notices/scraper.py:123-127 | without the label the whole text; with it, the text from the end of the first label up to the next label or the end |
| MeetingNotices.ParseMeetingNotice | meeting-notices/scraper.py:91-141 | a notice is parsed iff the link has an `href`, its URL contains `=`, its text splits on ` -- ` into exactly two parts, the detail page is fetched and it has at least 4 cells |
| MeetingNotices.ParsedNoticeId | meeting-notices/scraper.py:94-95 | the id is the text between the first `=` of the URL and the next `=` or the end |
| MeetingNotices.SecondPartOfUrl | meeting-notices/scraper.py:95 | `url.split('=')[1]` is that text |
| MeetingNotices.ParsedNoticeDateTime | meeting-notices/scraper.py:98 | the link text is `date + ' -- ' + time`, and neither part contains ` -- ` |
| MeetingNotices.ParsedNoticePageFields | meeting-notices/scraper.py:104-138 | agency and subagency come from the heading; location is the cleaned `<pre>` or cell text; purpose and notes follow the label rule |
| MeetingNotices.Scraped | meeting-notices/scraper.py:143-164 | a failed listing request is raised, no results table gives no notices, otherwise the successful parses of the links; stated by `ScrapedNoticesFromLinks` and `ScrapeNotices` |
| MeetingNotices.ScrapedNoticesFromLinks | meeting-notices/scraper.py:143-164 | the scraped notices are exactly the successful parses of the links |
| MeetingNotices.ToList | meeting-notices/scraper.py:41-52 | eight values in header order; the subagency cell is `None` iff there is no subagency |
| MeetingNotices.ToListReadsBackId | meeting-notices/scraper.py:41-52 | reading a written row back through the header gives the notice's id |
| MeetingNotices.NoticeRows | meeting-notices/scraper.py:179-180 | `Csv.Rows` of the notices: one written row per notice, in order |
| MeetingNotices.LoadIds | meeting-notices/scraper.py:72-79 | `Csv.Keys` on `id`: loading fails with `KeyError('id')` iff there is a data row and no `id` column; otherwise the key set is exactly the id cells |
| MeetingNotices.Loaded | meeting-notices/scraper.py:65-79 | a missing file leaves the known ids as they were, an existing one replaces them by its loaded ids; stated by `LoadExistingNotices` |
| MeetingNotices.NewNotices | meeting-notices/scraper.py:168 | the notices whose id is not known, in order; stated by `NewNoticesSpec` |
| MeetingNotices.NewNoticesSpec | meeting-notices/scraper.py:168 | new notices are a subsequence of the input; a notice is kept iff its id is not known; duplicates are all kept |
| MeetingNotices.KnownIdsStayKnown | meeting-notices/scraper.py:177-180 | appending notice rows under a header with an `id` column keeps every known id |
| MeetingNotices.AppendedIdsAreKnown | meeting-notices/scraper.py:177-180 | every appended notice's id is loaded back |
| MeetingNotices.IdKnownAfterSave | meeting-notices/scraper.py:166-186 | after saving, every input notice's id is known |
| MeetingNotices.SecondSaveAddsNothing | meeting-notices/scraper.py:166-186 | saving the same notices again finds nothing new |
| MeetingNotices.MeetingNoticesScraper.constructor | meeting-notices/scraper.py:61-63 | starts with no known ids |
| MeetingNotices.MeetingNoticesScraper.LoadExistingNotices | meeting-notices/scraper.py:65-79 | a missing file is created holding only the header; otherwise the known ids become the loaded ids, or the `KeyError` is raised |
| MeetingNotices.MeetingNoticesScraper.ScrapeNotices | meeting-notices/scraper.py:143-164 | the link loop keeps the successful parses in link order; no table gives none; a failed listing fetch is raised |
| MeetingNotices.MeetingNoticesScraper.SaveNewNotices | meeting-notices/scraper.py:166-186 | returns the number of notices with an unknown id; writes nothing when there are none, and otherwise appends exactly their rows in order |
| MeetingNotices.MeetingNoticesScraper.Run | meeting-notices/scraper.py:188-196 | load, scrape, then save: the file ends as the loaded rows plus the new notices' rows |
| LobbyingModels.ToList | lobbying/models.py:15-17 | the row is exactly name, period, url |
| LobbyingModels.GetFilename | lobbying/models.py:19-21 | the file name contains no `/` and is what follows the last `/` of the url; the whole url when it has none |
| LobbyingModels.GetFilenameIsLastOfSplit | lobbying/models.py:21 | the file name equals `url.split('/')[-1]` |
| LobbyingModels.FilenameIsLastSegment | lobbying/models.py:21 | any `/`-free tail that follows a `/` (or is the whole url) is the file name: it is unique |
| LobbyingModels.GetFilepath | lobbying/models.py:23-25 | the directory joined with the file name (the directory itself for an empty name or `.`); stated by `SamePathIffSameFilename` and `PdfFolder.ExistsIffOccupied` |
| LobbyingModels.SamePathIffSameFilename | lobbying/models.py:23-25 | two filings get the same path in a directory iff their file names are equal, or both are empty or `.` |
| LobbyingFilings.CycleUrl | lobbying/lobbying_filings.py:50-60 | the URL is the pages prefix, the cycle, then `.aspx` for `2019-2020` and `-Registration-Cycle.aspx` for every other cycle |
| LobbyingFilings.CycleUrlInjective | lobbying/lobbying_filings.py:50-60 | different cycles get different URLs |
| LobbyingFilings.DocumentLink | lobbying/lobbying_filings.py:82-83 | an anchor's `href` when it has one and it contains `SiteCollectionDocuments`, otherwise nothing; stated by `FilingLinks` |
| LobbyingFilings.FilingLinks | lobbying/lobbying_filings.py:81-84 | the candidate links are exactly the `href`s that contain `SiteCollectionDocuments` |
| LobbyingFilings.NameFromSegment | lobbying/lobbying_filings.py:121-127 | the name is no longer than the segment, has no lower-case letter, no surrounding whitespace and no `.` (it is cut before the first `.`) |
| LobbyingFilings.NameFromPlainStem | lobbying/lobbying_filings.py:121-127 | for a segment `stem + '.' + ext` whose stem has no `.`, no period and no `%20`, the name is exactly the stripped, upper-cased stem |
| LobbyingFilings.ParseFilingLink | lobbying/lobbying_filings.py:101-133 | a filing is parsed iff the link has at least 6 `/`-parts; then period is part 4, url is `BASE_URL + link`, and name comes from part 5 |
| LobbyingFilings.FilingsFromAnchors | lobbying/lobbying_filings.py:81-92 | the parsed filings of the candidate links, in page order; stated by `FilingsFromAnchorsSpec` |
| LobbyingFilings.FilingsFromAnchorsSpec | lobbying/lobbying_filings.py:81-92 | no more filings than anchors, each from a candidate link, its url being `BASE_URL` plus that link |
| LobbyingFilings.Filings | lobbying/lobbying_filings.py:62-99 | fetching fails iff the request fails, and the error is raised |
| LobbyingFilings.FilingRows | lobbying/lobbying_filings.py:147-150 | one headerless row `[name, period, url]` per filing, in order |
| LobbyingFilings.LobbyingFilingsScraper.constructor | lobbying/lobbying_filings.py:33-48 | stores the cycle and the `pdfs` folder |
| LobbyingFilings.LobbyingFilingsScraper.FetchFilings | lobbying/lobbying_filings.py:62-99 | the page fetched is the one at `CycleUrl(registration_cycle)`; a failed request is raised, otherwise the link loop keeps the successful parses in link order |
| LobbyingFilings.LobbyingFilingsScraper.SaveFilingsToCsv | lobbying/lobbying_filings.py:135-155 | nothing for no filings; otherwise the file is overwritten with exactly their rows |
| LobbyingFilings.LobbyingFilingsScraper.DownloadAllPdfs | lobbying/lobbying_filings.py:185-203 | the counter and the folder are those of the download rule applied to each filing in turn |
| LobbyingFilings.LobbyingFilingsScraper.Run | lobbying/lobbying_filings.py:205-218 | fetch the cycle's page at `CycleUrl(registration_cycle)`, save, then download; a failed page fetch changes nothing |
| PdfFolder.ExistsIffOccupied | lobbying/lobbying_filings.py:167-169 | the filing's path exists iff its file name is taken in the folder |
| PdfFolder.Exists | lobbying/lobbying_filings.py:167-169 | `Path.exists()` on a path in the folder: the folder itself, its parent entry `..`, or a file it holds; stated by `ExistsIffOccupied` |
| PdfFolder.Download | lobbying/lobbying_filings.py:157-183 | one filing: skipped when its file exists, stored under its file name when the fetch succeeds, nothing on a failed fetch; stated by `Folder.DownloadPdf` and `DownloadAllStep` |
| PdfFolder.DownloadAll | lobbying/lobbying_filings.py:185-203 | the download rule applied to each filing in turn, counting downloads; stated by `DownloadAllCount`, `DownloadAllKeeps`, `DownloadAllNames`, `DownloadAllCovers` |
| PdfFolder.DownloadAllStep | lobbying/lobbying_filings.py:198-200 | one more filing adds one to the count iff it is downloaded |
| PdfFolder.DownloadAllKeeps | lobbying/lobbying_filings.py:167-171 | files already in the folder are never overwritten |
| PdfFolder.DownloadAllCount | lobbying/lobbying_filings.py:196-203 | the count is the number of new files and is at most the number of filings |
| PdfFolder.DownloadAllNames | lobbying/lobbying_filings.py:177 | every new file is named after some filing's url |
| PdfFolder.DownloadAllCovers | lobbying/lobbying_filings.py:167-179 | afterwards every filing whose fetch succeeds has its file |
| PdfFolder.DownloadAllNothingLeft | lobbying/lobbying_filings.py:167-171 | when every fetchable filing's file exists, nothing is downloaded and the folder is unchanged |
| PdfFolder.SecondDownloadAddsNothing | lobbying/get_pdfs.py:115-118 | running the downloads a second time downloads nothing |
| PdfFolder.Folder.constructor | lobbying/lobbying_filings.py:42-43 | the folder with its files |
| PdfFolder.Folder.DownloadPdf | lobbying/lobbying_filings.py:157-183 | skip when the path exists; else write the fetched body under the file name and report a download; a failed fetch changes nothing |
| PdfFolder.Folder.DownloadEach | lobbying/get_pdfs.py:115-118 | the counting loop computes the download rule over the filings in order |
| PdfDownloader.FilingFromRow | lobbying/get_pdfs.py:58-65 | a row gives a filing iff it has at least 3 columns; then columns 0-2 are name, period, url |
| PdfDownloader.FilingsFromRows | lobbying/get_pdfs.py:57-69 | the filings of the rows that have at least three columns, in order; stated by `FilingsFromRowsSpec` and `ReadBackWrittenFilings` |
| PdfDownloader.FilingsFromRowsSpec | lobbying/get_pdfs.py:57-69 | at most one filing per row, and exactly the rows with 3 or more columns give one |
| PdfDownloader.ReadBackWrittenFilings | lobbying/get_pdfs.py:55-69 | reading back the rows the scraper writes gives the same filings |
| PdfDownloader.LoadedFilings | lobbying/get_pdfs.py:40-76 | loading fails with `FileNotFoundError` iff the CSV is missing |
| PdfDownloader.LoadsWhatScraperSaved | lobbying/get_pdfs.py:40-76 | loading the scraper's CSV gives exactly the saved filings |
| PdfDownloader.PDFDownloader.constructor | lobbying/get_pdfs.py:30-38 | the CSV file and the `pdfs` folder |
| PdfDownloader.PDFDownloader.LoadFilingsFromCsv | lobbying/get_pdfs.py:40-76 | the row loop computes the loading function |
| PdfDownloader.PDFDownloader.Run | lobbying/get_pdfs.py:107-120 | missing CSV: the error is raised and nothing is downloaded; otherwise the counter and folder follow the download rule |
| CrimeLog.IdAndTitle | crime-log/crime_log.py:17 | no heading: `AttributeError`; a split into anything other than two parts: `ValueError` |
| CrimeLog.IdAndTitleSpec | crime-log/crime_log.py:17 | the heading parses iff it splits on `': '` into exactly two parts, which it is made of |
| CrimeLog.HeadingRoundTrip | crime-log/crime_log.py:17 | `id + ': ' + title` parses back to `(id, title)` when neither contains the separator |
| CrimeLog.Keys | crime-log/crime_log.py:20 | the keys are exactly the stripped `<strong>` texts of the paragraphs |
| CrimeLog.FieldAt | crime-log/crime_log.py:22-30 | `p[k].text.split(': ')[1]`, or nothing where that raises `IndexError` (no paragraph `k`, or no `': '` in its text); stated by `FieldAtIsSplit` |
| CrimeLog.FieldAtIsSplit | crime-log/crime_log.py:22-30 | a field is `p[k].text.split(': ')[1]`, absent when that raises |
| CrimeLog.RecordFrom | crime-log/crime_log.py:19-31 | the record is built iff the needed fields exist and the date parses; the building is present iff `Building:` is a key, and address and outcome move down one paragraph without it; otherwise `ValueError` or `IndexError` |
| CrimeLog.IncidentRecord | crime-log/crime_log.py:16-33 | a heading error is raised; an incident without paragraphs gives no record |
| CrimeLog.RecordRoundTrip | crime-log/crime_log.py:19-31 | a record laid out as paragraphs, with or without a building, parses back to itself |
| CrimeLog.IncidentRoundTrip | crime-log/crime_log.py:17-31 | the same for a whole incident with its heading |
| CrimeLog.Records | crime-log/crime_log.py:16-31 | one record per incident in page order, stopping at the first incident that raises; stated by `ResultsSpec` and `ScrapeStopsAtFirstError` |
| CrimeLog.Results | crime-log/crime_log.py:12-33 | the records without repeats, in order of first occurrence; stated by `ResultsSpec` |
| CrimeLog.ResultsSpec | crime-log/crime_log.py:16-33 | results exist iff no incident raises; they have no duplicates, hold exactly the records built, and keep first-occurrence order |
| CrimeLog.ScrapeStopsAtFirstError | crime-log/crime_log.py:16-33 | a failed scrape raises the error of the first incident that raises |
| CrimeLog.ScrapeResults | crime-log/crime_log.py:12-33 | the nested loop with `if result not in results` computes those results |
| CrimeLog.ToList | crime-log/crime_log.py:31 | seven values in the order id, title, year, datetime, building, address, outcome; building `None` iff absent |
| CrimeLog.IncidentRows | crime-log/crime_log.py:40 | `Csv.Rows` of the records: one written row per record, in order |
| CrimeLog.LoadIds | crime-log/crime_log.py:6-8 | `Csv.Keys` on `id`: loading fails with `KeyError('id')` iff there is a data row and no `id` column; otherwise the key set is exactly the id cells |
| CrimeLog.NewIncidents | crime-log/crime_log.py:35 | the results whose id is not known, in order; stated by `NewIncidentsSpec` |
| CrimeLog.NewIncidentsSpec | crime-log/crime_log.py:35 | new incidents are the subsequence of the results whose id is not known, without duplicates |
| CrimeLog.NewIncidentsOf | crime-log/crime_log.py:6-35 | a missing CSV, a missing `id` column, a failed request or a raising incident each end the script with that error |
| CrimeLog.WriteRows | crime-log/crime_log.py:38-40 | the rows are appended after the old ones, in order |
| CrimeLog.Run | crime-log/crime_log.py:6-40 | the file is appended to only when there are new incidents, and then with exactly their rows |
| CrimeLog.ToListReadsBackId | crime-log/crime_log.py:8 | reading a written row back gives the record's id when `id` is the first header column |
| CrimeLog.KnownIdsStayKnown | crime-log/crime_log.py:37-40 | appending rows under a header with an `id` column keeps every known id |
| CrimeLog.AppendedIdsAreKnown | crime-log/crime_log.py:37-40 | every appended record's id is loaded back |
| CrimeLog.ResultsKnownAfterAppend | crime-log/crime_log.py:35-40 | after the append every result's id is known |
| CrimeLog.SecondRunAddsNothing | crime-log/crime_log.py:6-40 | a second run over the same page finds no new incidents |
| BoardOfReview.Header | dhhr/board_of_review.py:12-14 | 12 columns after 2015, 13 before; the pre-2016 header splits `withdrawn` into two columns |
| BoardOfReview.KeepDigits | dhhr/board_of_review.py:35 | `re.sub('[^[0-9]', '', s)`: only digits and `[` are kept, in order; stated by `KeepDigitsSpec` and `KeepDigitsIdempotent` |
| BoardOfReview.KeepDigitsSpec | dhhr/board_of_review.py:35 | the cleaned cell holds only digits and `[`, is a subsequence of the cell, and keeps every digit and `[` |
| BoardOfReview.KeepDigitsIdempotent | dhhr/board_of_review.py:35 | cleaning twice is cleaning once |
| BoardOfReview.Select | dhhr/board_of_review.py:23 | a row is kept iff its first cell's text is non-empty; an empty row raises `IndexError`; stated by `SelectIsFilter` and `KeptRowsSpec` |
| BoardOfReview.Body | dhhr/board_of_review.py:23 | `data[2:-1]`: the table rows without the first two and the last; stated by `KeptRowsSpec` |
| BoardOfReview.SelectIsFilter | dhhr/board_of_review.py:23 | the comprehension over non-empty rows is the filter "first cell text non-empty" |
| BoardOfReview.KeptRows | dhhr/board_of_review.py:23 | every kept row has a non-empty first cell; the only error is `IndexError` |
| BoardOfReview.KeptRowsSpec | dhhr/board_of_review.py:23 | the rows of `data[2:-1]` are kept iff their first cell text is non-empty, in order; it fails iff one of them is empty |
| BoardOfReview.Rows | dhhr/board_of_review.py:22-25 | table 1's rows when they can be read, otherwise table 0's; `IndexError` when neither can |
| BoardOfReview.CleanCells | dhhr/board_of_review.py:35 | one cleaned value per cell, in order |
| BoardOfReview.OutRow | dhhr/board_of_review.py:34-35 | the written row is year, category, then the cleaned remaining cells: one longer than the table row |
| BoardOfReview.Lines | dhhr/board_of_review.py:33-35 | one written line per kept row, in order |
| BoardOfReview.ReportRows | dhhr/board_of_review.py:29-35 | the file is the year's header followed by one line per kept row |
| BoardOfReview.OutRowShape | dhhr/board_of_review.py:34-35 | a written line is the decimal year, the category and cleaned cells of only digits and `[` |
| BoardOfReview.ReportRowsShape | dhhr/board_of_review.py:29-35 | every data line of a year's file has that shape |
| BoardOfReview.FileName | dhhr/board_of_review.py:27 | `board_of_review_<year>.csv`; stated by `FileNameInjective` |
| BoardOfReview.FileNameInjective | dhhr/board_of_review.py:27 | different years get different file names |
| BoardOfReview.ReportFile | dhhr/board_of_review.py:17-35 | a year's file fails iff its PDF cannot be read or no table's rows can be read, with that error; otherwise it is the year's header and rows |
| BoardOfReview.Process | dhhr/board_of_review.py:16-35 | the loop over reports: each writes its file over the old one until the first that raises; stated by `ProcessStep`, `ProcessPassIff`, `ProcessWrites`, `ProcessFailure` |
| BoardOfReview.ProcessStep | dhhr/board_of_review.py:16-35 | one more report either stops at its error or writes its file over the old one |
| BoardOfReview.ProcessKeepsFailure | dhhr/board_of_review.py:16-35 | once a report has raised, later reports change nothing |
| BoardOfReview.ProcessPassIff | dhhr/board_of_review.py:16-35 | the run completes iff every report can be processed |
| BoardOfReview.ProcessWrites | dhhr/board_of_review.py:16-35 | after a completed run over distinct years each year's file holds that year's report |
| BoardOfReview.ProcessTouchesOnlyReportFiles | dhhr/board_of_review.py:16-35 | a file that belongs to none of the years is unchanged |
| BoardOfReview.ProcessFailure | dhhr/board_of_review.py:16-35 | a failed run raises the first report's error, and the files of the years before it have been written |
| BoardOfReview.UrlsDistinctYears | dhhr/board_of_review.py:7-10 | the seven reports have distinct years |
| BoardOfReview.Folder.WriteReport | dhhr/board_of_review.py:27-35 | the year's file is replaced by its header and rows, and nothing else changes |
| BoardOfReview.Folder.ProcessReports | dhhr/board_of_review.py:16-35 | the loop over reports computes the run function |
| BoardOfReview.Folder.Run | dhhr/board_of_review.py:16-35 | the script runs the loop over the seven reports |
| Text.Split | lobbying/lobbying_filings.py:113 | `str.split`: the parts join back to the string and none contains the separator; a single part iff the separator is absent |
| Text.Find | crime-log/crime_log.py:17 | the lowest index where the pattern occurs, or none when it does not occur anywhere (what `in` and `split` search for) |
| Text.UpToFirstChar | lobbying/lobbying_filings.py:122 | the first part of a split on a one-character separator ends right before its first occurrence |
| Text.SecondPart | meeting-notices/scraper.py:95 | present iff the separator occurs; then the `sep`-free text from after the first occurrence up to the next one or the end |
| Text.SecondPartIsSplit | meeting-notices/scraper.py:95 | the second-part helper equals `split(sep)[1]` when there are two parts, and is absent otherwise |
| Text.ReplaceEachIsJoinOfSplit | meeting-notices/scraper.py:39 | `str.replace` is joining the split by the replacement |
| Text.ReplaceEachNoLonger | meeting-notices/scraper.py:39 | replacing by something no longer does not lengthen the string |
| Text.Replace | meeting-notices/scraper.py:39 | `str.replace`, every occurrence found left to right; stated by `ReplaceEachIsJoinOfSplit`, `ReplaceAbsent`, `ReplaceKeepsOut` |
| Text.ReplaceAbsent | lobbying/lobbying_filings.py:123-124 | without an occurrence of the pattern the text is unchanged |
| Text.ReplaceKeepsOut | lobbying/lobbying_filings.py:123-124 | replacing never brings in a character that neither the text nor the replacement holds |
| Text.Strip | wv-legislature/agency_reports.py:106-108 | `str.strip` keeps the middle of the string and removes all surrounding whitespace |
| Text.IsSpace | wv-legislature/agency_reports.py:106-108 | Python's `str.isspace` set, including the Unicode spaces; used by `Strip`, whose contract states what is removed |
| Text.Upper | lobbying/lobbying_filings.py:126 | `str.upper` on ASCII letters: same length, each lower-case letter becomes its upper-case letter (code minus 32), upper-case letters and non-letters are kept, no lower-case letter is left |
| Text.DecimalInjective | dhhr/board_of_review.py:27 | `str(int)` is injective |
| Text.Decimal | dhhr/board_of_review.py:27 | `str(int)`: a minus sign for negatives, then the digits; stated by `DecimalInjective` and `DecimalSign` |
| Seqs.FilterIsSubsequence | wv-legislature/agency_reports.py:162 | a list comprehension with a condition keeps a subsequence |
| Seqs.FilterCounts | wv-legislature/agency_reports.py:162 | it keeps every copy of a kept element and none of a dropped one |
| Seqs.MapSomeMembers | meeting-notices/scraper.py:158-161 | appending only the non-`None` results keeps exactly those results |
| Seqs.CollectSpec | crime-log/crime_log.py:16-33 | a loop that may raise completes iff no element raises, and then keeps exactly the produced values |
| Seqs.CollectFirstError | crime-log/crime_log.py:16-33 | a loop that raises raises the first element's error |
| Seqs.Dedup | crime-log/crime_log.py:32-33 | appending only values not yet present gives a duplicate-free list with the same elements |
| Seqs.DedupFirstOccurrenceOrder | crime-log/crime_log.py:32-33 | and it keeps the order of first occurrence |
| Csv.ColumnAfterAppend | wv-legislature/agency_reports.py:66-70 | reading a column after appending rows reads the old column followed by the new rows' fields |
| Csv.Rows | meeting-notices/scraper.py:179-180 | the rows `writerow(to_list(x))` writes for a list, one per element, in order |
| Csv.DataRows | wv-legislature/agency_reports.py:66-70 | `csv.DictReader`'s rows: the lines after the header, blank lines skipped; stated by `ColumnAfterAppend` and `AgencyReports.HeaderOnlyHasNoUrls` |
| Csv.Field | wv-legislature/agency_reports.py:66-70 | `row[name]`: the cell under the last header column of that name, `None` for a short row; stated by `ColumnHasAppendedField` |
| Csv.Column | wv-legislature/agency_reports.py:66-70 | the column fails with `KeyError(name)` iff there is a data row and the header lacks the name; otherwise one value per data row |
| Csv.Keys | meeting-notices/scraper.py:74-75 | the key set of a column: fails like the column, otherwise exactly the cells present |
| Csv.ColumnKeepsCells | crime-log/crime_log.py:37-40 | appending non-blank rows under a header with the column keeps every value the column had |
| Csv.ColumnHasAppendedField | crime-log/crime_log.py:37-40 | appending non-blank rows under a header with the column adds each row's value |
| Csv.CsvFile.WriteText | wv-legislature/agency_reports.py:61 | `Path.write_text(header + '\n')`: the file exists and holds exactly that one row, whatever it held before |
| Csv.CsvFile.Open | meeting-notices/scraper.py:177 | `open(path, 'a')` creates the file if needed and keeps its rows; `open(path, 'w')` creates or truncates it to no rows |
| Csv.CsvFile.WriteRow | meeting-notices/scraper.py:178-180 | `writer.writerow(values)` appends exactly the rendered row after the existing rows |

## Left out

- Network access (`requests.Session`, `get`, `post`, timeouts, `raise_for_status`): a fetch is a
  parameter returning the body or a request failure.
- HTML parsing with BeautifulSoup: pages arrive as already-parsed values (table rows with cells
  and link, anchors, detail cells, incident paragraphs).
- The newline removal before parsing at lobbying/lobbying_filings.py:77: it changes only the
  HTML text, which is not modelled.
- `dateutil.parser.parse` in crime-log/crime_log.py:22-27: a parameter that returns the date's
  CSV text or fails with `ValueError`. The dedup at crime-log/crime_log.py:32 therefore compares
  dates as text: two timezone-aware dates for the same instant written differently (`12:00 UTC`
  and `07:00 -0500`) are equal `datetime`s in Python but different texts here, so the model
  keeps and appends both records where the script keeps one.
- `tabula.read_pdf` in dhhr/board_of_review.py:19: a parameter that returns the tables or fails.
  A missing table is `IndexError`, the error the bare `except` is shown to catch; a missing
  `data` key (a `KeyError` in Python) is not modelled, since every table carries its rows. The
  model does not distinguish other exception kinds.
- Logging, pydantic validation, `main()` and the command line: no observable effect on the files
  beyond what is modelled.
- `_ensure_pdf_directory` (`mkdir`): the `pdfs` folder is given as existing.
- Errors the operating system raises while writing files (`OSError`): writes always succeed.
- Byte-level CSV details (quoting, escaping, line endings): a file is its sequence of rows of cell
  strings.
- `csv.writer` renders `None` as an empty cell and an `int` as its decimal form. A `datetime`
  cell is the string the date parameter returns.
- Text.Upper: only ASCII letters are upper-cased. Python's Unicode case tables are not modelled.
- MeetingNotices.AgencyOf: `h2.find('br').previous` is modelled as the text before the first
  line break, assumed to be a string. A `Tag` there, which pydantic would reject, is not
  modelled.
- AgencyReports.AgencyReportsScraper.FetchReportsForYear: the `except Exception` inside the row
  loop is not modelled. No row operation the model covers raises.
- CrimeLog.SecondRunAddsNothing and the other read-back lemmas of `crime_log.csv` assume `id`
  is the first header column (CrimeLog.KnownIdsStayKnown needs only an `id` column).
  `crime_log.py` never writes a header, so the file's header is not known from that script.
- BoardOfReview: the imports of `requests` and `time` are unused and are not modelled.
- `wvu-covid-tests/wvu_tests.py` is not part of this model: it is one fetch of a results table,
  a date parse per row and a single overwrite of its CSV, with no incremental logic.
- `crime-log/utils.py` is not part of this model: a one-off repair that re-reads `crime_log.csv`
  with `csv.DictReader`, re-parses each `datetime` cell with `dateutil`, and rewrites the file
  with a `DictWriter` header `id,title,year,datetime,building,address,outcome`. That header puts
  `id` first, which is what the crime log's read-back lemmas assume.
- Where the code and the design notes of the repository disagree, the model follows the code:
  - No header check and no `CorruptDatasetError`. Loading fails only with `KeyError` when the
    key column is missing and the file has a data row.
  - Keys are not unique within a run. Agency reports and meeting notices keep every report or
    notice of the batch with a new key, duplicates included. The crime log removes only records
    equal in every field.
  - Appends are not atomic. `board_of_review.py` keeps the files of earlier years when a later
    year raises (`ProcessFailure`).
  - A missing `all_reports.csv` or `meeting_notices.csv` is created with its header before
    scraping starts. A later failure therefore leaves that new file behind.
  - `save_reports` in append mode never writes a header. `open(..., 'a')` has already created
    the file when `filepath.exists()` is evaluated, so the model decides the header from the
    `append` flag alone.
