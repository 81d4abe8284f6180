/**
 The WV Ethics Commission lobbying filings scraper: it reads the page of one registration cycle,
 keeps the links to filing documents, parses each into a filing (name, period, PDF URL), writes
 all filings to `lobbying_filings.csv` and downloads the PDFs it does not have yet.
 */
module LobbyingFilings {
  import opened Wrappers
  import opened Seqs
  import Text
  import Web
  import Csv
  import opened LobbyingModels
  import PdfFolder

  const BASE_URL := "https://ethics.wv.gov"
  const PAGES := "/lobbyist/Pages/"
  const CSV_FILE := "lobbying_filings.csv"
  const PDF_DIR: Path := ["pdfs"]
  /** The one cycle whose page is not named `<cycle>-Registration-Cycle.aspx`. */
  const SPECIAL_CYCLE := "2019-2020"
  const CYCLE_SUFFIX := "-Registration-Cycle"
  const ASPX := ".aspx"
  /** The path segment every filing document's link contains. */
  const DOCUMENTS := "SiteCollectionDocuments"

  /**
   The page of a registration cycle: under `/lobbyist/Pages/`, named after the cycle, followed by
   `-Registration-Cycle` except for the 2019-2020 cycle, then `.aspx`.
   */
  function CycleUrl(cycle: string): (url: string)
    ensures |BASE_URL + PAGES + cycle| <= |url| && url[..|BASE_URL + PAGES + cycle|] == BASE_URL + PAGES + cycle
    ensures url[|BASE_URL + PAGES + cycle|..] == if cycle == SPECIAL_CYCLE then ASPX else CYCLE_SUFFIX + ASPX
  {
    if cycle == SPECIAL_CYCLE then BASE_URL + PAGES + cycle + ASPX
    else BASE_URL + PAGES + cycle + CYCLE_SUFFIX + ASPX
  }

  /** Different cycles are read from different pages. */
  lemma CycleUrlInjective(a: string, b: string)
    requires CycleUrl(a) == CycleUrl(b)
    ensures a == b
  {
    var n := |BASE_URL + PAGES|;
    assert a == CycleUrl(a)[n..n + |a|];
    assert b == CycleUrl(b)[n..n + |b|];
    assert |CycleUrl(a)| == n + |a| + if a == SPECIAL_CYCLE then |ASPX| else |CYCLE_SUFFIX + ASPX|;
    assert |CycleUrl(b)| == n + |b| + if b == SPECIAL_CYCLE then |ASPX| else |CYCLE_SUFFIX + ASPX|;
  }

  /** The link of an `<a>` element that has an `href` naming a filing document. */
  function DocumentLink(a: Web.Anchor): Option<string> {
    match a.href
    case Some(href) => if Text.Contains(href, DOCUMENTS) then Some(href) else None
    case None => None
  }

  /**
   `[x['href'] for x in soup.find_all('a') if 'href' in x.attrs and 'SiteCollectionDocuments' in x['href']]`:
   a link is kept exactly when some anchor has it as its `href` and it names a filing document.
   */
  function FilingLinks(anchors: seq<Web.Anchor>): (links: seq<string>)
    ensures |links| <= |anchors|
    ensures forall link :: link in links <==>
      (Text.Contains(link, DOCUMENTS) && exists k :: 0 <= k < |anchors| && anchors[k].href == Some(link))
  {
    MapSomeMembers(anchors, DocumentLink);
    MapSome(anchors, DocumentLink)
  }

  /**
   The lobbyist's name from the last path segment: the text before its first `.`, with the
   period removed, `%20` turned into spaces, surrounding whitespace stripped and upper-cased.
   */
  function NameFromSegment(segment: string, period: string): (name: string)
    ensures |name| <= |segment|
    ensures forall k :: 0 <= k < |name| ==> !Text.IsLower(name[k])
    ensures name == [] || (!Text.IsSpace(name[0]) && !Text.IsSpace(name[|name| - 1]))
    ensures !Text.Contains(name, ".")
  {
    var stem := Text.Split(segment, ".")[0];
    Text.SplitFirst(segment, ".");
    Text.ContainsChar(stem, '.');
    var withoutPeriod := Text.Replace(stem, period, "");
    Text.ReplaceNoLonger(stem, period, "");
    Text.ReplaceKeepsOut(stem, period, "", '.');
    var spaced := Text.Replace(withoutPeriod, "%20", " ");
    Text.ReplaceNoLonger(withoutPeriod, "%20", " ");
    Text.ReplaceKeepsOut(withoutPeriod, "%20", " ", '.');
    Text.StripKeepsOut(spaced, '.');
    Text.UpperKeepsOut(Text.Strip(spaced), '.');
    Text.ContainsChar(Text.Upper(Text.Strip(spaced)), '.');
    Text.Upper(Text.Strip(spaced))
  }

  /**
   A segment made of a plain stem (no `.`, no period, no `%20`) and an extension names the
   stripped, upper-cased stem.
   */
  lemma NameFromPlainStem(stem: string, ext: string, period: string)
    requires !Text.Contains(stem, ".") && !Text.Contains(stem, period) && !Text.Contains(stem, "%20")
    ensures NameFromSegment(stem + "." + ext, period) == Text.Upper(Text.Strip(stem))
  {
    var segment := stem + "." + ext;
    Text.SplitFirst(segment, ".");
    Text.ContainsChar(stem, '.');
    assert segment[..|stem|] == stem;
    Text.UpToFirstChar(segment, '.', |stem|);
    Text.ReplaceAbsent(stem, period, "");
    Text.ReplaceAbsent(stem, "%20", " ");
  }

  /**
   `_parse_filing_link(link)`: a link of fewer than six `/`-separated parts is rejected; otherwise
   the period is the fifth part, the name comes from the sixth, and the URL is the link on the
   commission's site.
   */
  function ParseFilingLink(link: string): (r: Option<LobbyingFiling>)
    ensures r.Some? <==> |Text.Split(link, "/")| >= 6
    ensures r.Some? ==> var parts := Text.Split(link, "/");
      && r.value.url == BASE_URL + link
      && r.value.period == parts[4]
      && !Text.Contains(r.value.period, "/")
      && r.value.name == NameFromSegment(parts[5], parts[4])
  {
    var parts := Text.Split(link, "/");
    if |parts| < 6 then None
    else
      var period := parts[4];
      Some(LobbyingFiling(NameFromSegment(parts[5], period), period, BASE_URL + link))
  }

  /** The filings of a cycle page's anchors: one per document link that parses, in page order. */
  function FilingsFromAnchors(anchors: seq<Web.Anchor>): seq<LobbyingFiling> {
    MapSome(FilingLinks(anchors), ParseFilingLink)
  }

  /**
   Every filing read from a page points into the commission's site at a document link the page
   holds, and the page gives at most one filing per anchor.
   */
  lemma FilingsFromAnchorsSpec(anchors: seq<Web.Anchor>)
    ensures |FilingsFromAnchors(anchors)| <= |anchors|
    ensures forall f :: f in FilingsFromAnchors(anchors) ==>
      exists link :: link in FilingLinks(anchors) && f.url == BASE_URL + link && Text.Contains(link, DOCUMENTS)
  {
    var links := FilingLinks(anchors);
    MapSomeMembers(links, ParseFilingLink);
    forall f | f in FilingsFromAnchors(anchors)
      ensures exists link :: link in links && f.url == BASE_URL + link && Text.Contains(link, DOCUMENTS)
    {
      var k :| 0 <= k < |links| && ParseFilingLink(links[k]) == Some(f);
      assert links[k] in links;
    }
  }

  /** `fetch_filings()`: a failed request raises; otherwise the page's filings. */
  function Filings(page: Web.Fetch<seq<Web.Anchor>>): (r: Result<seq<LobbyingFiling>>)
    ensures r.Failure? <==> page.RequestFailed?
    ensures r.Failure? ==> r.error == RequestError
  {
    match page
    case RequestFailed => Failure(RequestError)
    case Fetched(anchors) => Success(FilingsFromAnchors(anchors))
  }

  /** The rows `save_filings_to_csv` writes: one per filing, no header. */
  function FilingRows(filings: seq<LobbyingFiling>): (rows: seq<seq<string>>)
    ensures |rows| == |filings|
    ensures forall k :: 0 <= k < |filings| ==> rows[k] == [filings[k].name, filings[k].period, filings[k].url]
  {
    seq(|filings|, k requires 0 <= k < |filings| => Csv.RenderRow(ToList(filings[k])))
  }

  class LobbyingFilingsScraper {
    const registrationCycle: string
    const csvFile: Csv.CsvFile
    const pdfs: PdfFolder.Folder

    ghost predicate Valid()
      reads this, csvFile
    {
      csvFile.Valid() && pdfs.directory == PDF_DIR
    }

    /** The folder is created if missing (`_ensure_pdf_directory`); the folder is passed in existing. */
    constructor (registrationCycle: string, csvFile: Csv.CsvFile, pdfs: PdfFolder.Folder)
      requires csvFile.Valid() && pdfs.directory == PDF_DIR
      ensures Valid()
      ensures this.registrationCycle == registrationCycle && this.csvFile == csvFile && this.pdfs == pdfs
    {
      this.registrationCycle := registrationCycle;
      this.csvFile := csvFile;
      this.pdfs := pdfs;
    }

    /**
     `fetch_filings()` on the response for the cycle page: the links are parsed one by one, the
     ones that parse appended in order.
     */
    method FetchFilings(fetchPage: string -> Web.Fetch<seq<Web.Anchor>>) returns (r: Result<seq<LobbyingFiling>>)
      ensures r == Filings(fetchPage(CycleUrl(registrationCycle)))
    {
      var page := fetchPage(CycleUrl(registrationCycle));
      if page.RequestFailed? {
        return Failure(RequestError);
      }
      var links := FilingLinks(page.body);
      var filings: seq<LobbyingFiling> := [];
      for i := 0 to |links|
        invariant filings == MapSome(links[..i], ParseFilingLink)
      {
        MapSomeStep(links, i, ParseFilingLink);
        match ParseFilingLink(links[i])
        case Some(filing) =>
          filings := filings + [filing];
        case None =>
      }
      assert links[..|links|] == links;
      return Success(filings);
    }

    /**
     `save_filings_to_csv(filings)`: nothing happens when there are no filings; otherwise the file
     is overwritten with one row per filing.
     */
    method SaveFilingsToCsv(filings: seq<LobbyingFiling>)
      requires Valid()
      modifies csvFile
      ensures Valid()
      ensures filings == [] ==> unchanged(csvFile)
      ensures filings != [] ==> csvFile.present && csvFile.rows == FilingRows(filings)
    {
      if filings == [] {
        return;
      }
      csvFile.Open(false);
      for i := 0 to |filings|
        invariant csvFile.Valid() && csvFile.present
        invariant csvFile.rows == FilingRows(filings[..i])
      {
        csvFile.WriteRow(ToList(filings[i]));
        assert FilingRows(filings[..i + 1]) == FilingRows(filings[..i]) + [Csv.RenderRow(ToList(filings[i]))];
      }
      assert filings[..|filings|] == filings;
    }

    /** `download_all_pdfs(filings)`: the download rule over every filing, counting downloads. */
    method DownloadAllPdfs(filings: seq<LobbyingFiling>, fetch: string -> Web.Fetch<Web.Bytes>) returns (downloaded: nat)
      modifies pdfs
      ensures (downloaded, pdfs.files) == PdfFolder.DownloadAll(old(pdfs.files), filings, fetch)
    {
      downloaded := pdfs.DownloadEach(filings, fetch);
    }

    /**
     `run()`: a failed page request ends the run before anything is written; otherwise the filings
     are saved (when there are any) and their PDFs downloaded.
     */
    method Run(fetchPage: string -> Web.Fetch<seq<Web.Anchor>>, fetch: string -> Web.Fetch<Web.Bytes>) returns (outcome: Outcome)
      requires Valid()
      modifies csvFile, pdfs
      ensures Valid()
      ensures var page := fetchPage(CycleUrl(registrationCycle));
        page.RequestFailed? ==> outcome == Fail(RequestError) && unchanged(csvFile) && unchanged(pdfs)
      ensures var page := fetchPage(CycleUrl(registrationCycle));
        page.Fetched? ==> var filings := FilingsFromAnchors(page.body);
        && outcome == Pass
        && (filings == [] ==> unchanged(csvFile))
        && (filings != [] ==> csvFile.present && csvFile.rows == FilingRows(filings))
        && pdfs.files == PdfFolder.DownloadAll(old(pdfs.files), filings, fetch).1
    {
      var r := FetchFilings(fetchPage);
      if r.Failure? {
        return Fail(r.error);
      }
      SaveFilingsToCsv(r.value);
      var _ := DownloadAllPdfs(r.value, fetch);
      outcome := Pass;
    }
  }
}
