/**
 The stand-alone PDF downloader: it reads `lobbying_filings.csv` (written by the filings scraper,
 without a header) back into filings and downloads every PDF that is not in the folder yet.
 */
module PdfDownloader {
  import opened Wrappers
  import opened Seqs
  import Web
  import Csv
  import opened LobbyingModels
  import PdfFolder
  import LobbyingFilings

  const CSV_FILE := "lobbying_filings.csv"
  const PDF_DIR: Path := ["pdfs"]

  /** A `csv.reader` row with at least three fields is a filing (extra fields are ignored). */
  function FilingFromRow(row: seq<string>): (r: Option<LobbyingFiling>)
    ensures r.Some? <==> |row| >= 3
    ensures r.Some? ==> r.value.name == row[0] && r.value.period == row[1] && r.value.url == row[2]
  {
    if |row| >= 3 then Some(LobbyingFiling(row[0], row[1], row[2])) else None
  }

  /** The filings of a file's rows, in file order; shorter rows are skipped. */
  function FilingsFromRows(rows: seq<seq<string>>): seq<LobbyingFiling> {
    MapSome(rows, FilingFromRow)
  }

  /**
   Every filing read back comes from a row of at least three fields, every such row gives one,
   and there are never more filings than rows.
   */
  lemma FilingsFromRowsSpec(rows: seq<seq<string>>)
    ensures |FilingsFromRows(rows)| <= |rows|
    ensures forall f :: f in FilingsFromRows(rows) <==>
      exists k :: 0 <= k < |rows| && |rows[k]| >= 3 && f == LobbyingFiling(rows[k][0], rows[k][1], rows[k][2])
  {
    MapSomeMembers(rows, FilingFromRow);
    forall f | f in FilingsFromRows(rows)
      ensures exists k :: 0 <= k < |rows| && |rows[k]| >= 3 && f == LobbyingFiling(rows[k][0], rows[k][1], rows[k][2])
    {
      var k :| 0 <= k < |rows| && FilingFromRow(rows[k]) == Some(f);
    }
  }

  /** The rows the filings scraper writes read back as exactly the filings it wrote, in order. */
  lemma {:induction false} ReadBackWrittenFilings(filings: seq<LobbyingFiling>)
    ensures FilingsFromRows(LobbyingFilings.FilingRows(filings)) == filings
  {
    if filings != [] {
      var n := |filings| - 1;
      var rows := LobbyingFilings.FilingRows(filings);
      ReadBackWrittenFilings(filings[..n]);
      assert rows[..n] == LobbyingFilings.FilingRows(filings[..n]);
      assert FilingFromRow(rows[n]) == Some(filings[n]);
      assert filings == filings[..n] + [filings[n]];
    }
  }

  /** `load_filings_from_csv()`: a missing file raises FileNotFoundError; otherwise its filings. */
  function LoadedFilings(present: bool, rows: seq<seq<string>>): (r: Result<seq<LobbyingFiling>>)
    ensures r.Failure? <==> !present
    ensures r.Failure? ==> r.error == FileNotFound(CSV_FILE)
  {
    if !present then Failure(FileNotFound(CSV_FILE)) else Success(FilingsFromRows(rows))
  }

  /**
   After the filings scraper has saved a non-empty list, the downloader loads exactly that list,
   whatever the file held before.
   */
  lemma LoadsWhatScraperSaved(filings: seq<LobbyingFiling>)
    ensures LoadedFilings(true, LobbyingFilings.FilingRows(filings)) == Success(filings)
  {
    ReadBackWrittenFilings(filings);
  }

  class PDFDownloader {
    const csvFile: Csv.CsvFile
    const pdfs: PdfFolder.Folder

    /** The folder is created if missing (`_ensure_pdf_directory`); the folder is passed in existing. */
    constructor (csvFile: Csv.CsvFile, pdfs: PdfFolder.Folder)
      requires pdfs.directory == PDF_DIR
      ensures this.csvFile == csvFile && this.pdfs == pdfs
    {
      this.csvFile := csvFile;
      this.pdfs := pdfs;
    }

    /** `load_filings_from_csv()`: the rows are read one by one, each long enough one appended. */
    method LoadFilingsFromCsv() returns (r: Result<seq<LobbyingFiling>>)
      ensures r == LoadedFilings(csvFile.present, csvFile.rows)
    {
      if !csvFile.present {
        return Failure(FileNotFound(CSV_FILE));
      }
      var rows := csvFile.rows;
      var filings: seq<LobbyingFiling> := [];
      for i := 0 to |rows|
        invariant filings == MapSome(rows[..i], FilingFromRow)
      {
        MapSomeStep(rows, i, FilingFromRow);
        var row := rows[i];
        if |row| >= 3 {
          filings := filings + [LobbyingFiling(row[0], row[1], row[2])];
        }
      }
      assert rows[..|rows|] == rows;
      return Success(filings);
    }

    /**
     `run()`: a missing CSV file ends the run with nothing downloaded; otherwise every filing goes
     through the download rule and the downloads are counted.
     */
    method Run(fetch: string -> Web.Fetch<Web.Bytes>) returns (outcome: Outcome, downloaded: nat)
      modifies pdfs
      ensures !csvFile.present ==> outcome == Fail(FileNotFound(CSV_FILE)) && downloaded == 0 && unchanged(pdfs)
      ensures csvFile.present ==> var filings := FilingsFromRows(csvFile.rows);
        && outcome == Pass
        && (downloaded, pdfs.files) == PdfFolder.DownloadAll(old(pdfs.files), filings, fetch)
    {
      var r := LoadFilingsFromCsv();
      if r.Failure? {
        return Fail(r.error), 0;
      }
      downloaded := pdfs.DownloadEach(r.value, fetch);
      outcome := Pass;
    }
  }
}
