/**
 The `pdfs` folder both lobbying scripts download into, and the rule they share for one filing:
 skip it when its path already exists, otherwise fetch the URL and write the body there. A file
 that exists is never fetched again and never overwritten.
 */
module PdfFolder {
  import opened Wrappers
  import Web
  import opened LobbyingModels

  /** The files directly inside the folder, by name. */
  type Files = map<string, Web.Bytes>

  /**
   `path.exists()` for the folder itself or for a path directly inside it (the only paths the
   scripts ask about): the folder exists, `..` names its parent, and any other name exists when
   the folder holds a file by that name.
   */
  predicate Exists(files: Files, directory: Path, path: Path) {
    || path == directory
    || (&& |path| == |directory| + 1
        && path[..|directory|] == directory
        && (path[|directory|] == ".." || path[|directory|] in files))
  }

  /** The name under which a filing's PDF is written when it is downloaded. */
  predicate Occupied(files: Files, name: string) {
    name == "" || name == "." || name == ".." || name in files
  }

  /** The filing's path exists exactly when its file name is occupied. */
  lemma ExistsIffOccupied(files: Files, directory: Path, f: LobbyingFiling)
    ensures Exists(files, directory, GetFilepath(f, directory)) <==> Occupied(files, GetFilename(f.url))
  {
    var name := GetFilename(f.url);
    var p := GetFilepath(f, directory);
    if !(name == "" || name == ".") {
      assert p[..|directory|] == directory && p[|directory|] == name;
    }
  }

  /**
   `download_pdf`: whether it reports a download, and the folder afterwards. It downloads exactly
   when the file name is free (see `ExistsIffOccupied`) and the request succeeds, and then writes
   the body under the file name and nothing else; otherwise the folder is unchanged.
   */
  function Download(files: Files, f: LobbyingFiling, fetch: string -> Web.Fetch<Web.Bytes>): (bool, Files)
  {
    var name := GetFilename(f.url);
    if Occupied(files, name) then (false, files)
    else
      match fetch(f.url)
      case RequestFailed => (false, files)
      case Fetched(body) => (true, files[name := body])
  }

  /** The download loop over `filings`: how many downloads it reports, and the folder afterwards. */
  function DownloadAll(files: Files, filings: seq<LobbyingFiling>, fetch: string -> Web.Fetch<Web.Bytes>): (nat, Files)
  {
    if filings == [] then (0, files)
    else
      var prev := DownloadAll(files, filings[..|filings| - 1], fetch);
      var step := Download(prev.1, filings[|filings| - 1], fetch);
      (if step.0 then prev.0 + 1 else prev.0, step.1)
  }

  /** One more iteration of the loop: the download rule applied to the next filing. */
  lemma DownloadAllStep(files: Files, filings: seq<LobbyingFiling>, i: nat, fetch: string -> Web.Fetch<Web.Bytes>)
    requires i < |filings|
    ensures var prev := DownloadAll(files, filings[..i], fetch);
      var step := Download(prev.1, filings[i], fetch);
      DownloadAll(files, filings[..i + 1], fetch) == (if step.0 then prev.0 + 1 else prev.0, step.1)
  {
    assert filings[..i + 1][..i] == filings[..i];
  }

  /** The loop never removes or overwrites a file: every file that was there keeps its content. */
  lemma {:induction false} DownloadAllKeeps(files: Files, filings: seq<LobbyingFiling>, fetch: string -> Web.Fetch<Web.Bytes>)
    ensures var after := DownloadAll(files, filings, fetch).1;
      forall name :: name in files ==> name in after && after[name] == files[name]
  {
    if filings != [] {
      DownloadAllKeeps(files, filings[..|filings| - 1], fetch);
    }
  }

  /** The count is the number of files added, which is at most the number of filings. */
  lemma {:induction false} DownloadAllCount(files: Files, filings: seq<LobbyingFiling>, fetch: string -> Web.Fetch<Web.Bytes>)
    ensures var r := DownloadAll(files, filings, fetch);
      && files.Keys <= r.1.Keys
      && r.0 == |r.1.Keys| - |files.Keys|
      && r.0 <= |filings|
  {
    if filings != [] {
      var last := filings[|filings| - 1];
      DownloadAllCount(files, filings[..|filings| - 1], fetch);
      var before := DownloadAll(files, filings[..|filings| - 1], fetch).1;
      var step := Download(before, last, fetch);
      if step.0 {
        var name := GetFilename(last.url);
        assert step.1.Keys == before.Keys + {name};
      }
    }
  }

  /** Every file the loop adds is named after one of the filings' URLs. */
  lemma {:induction false} DownloadAllNames(files: Files, filings: seq<LobbyingFiling>, fetch: string -> Web.Fetch<Web.Bytes>)
    ensures var after := DownloadAll(files, filings, fetch).1;
      forall name :: name in after && name !in files ==>
        exists k :: 0 <= k < |filings| && GetFilename(filings[k].url) == name
  {
    if filings != [] {
      var init := filings[..|filings| - 1];
      DownloadAllNames(files, init, fetch);
      var before := DownloadAll(files, init, fetch).1;
      var after := DownloadAll(files, filings, fetch).1;
      forall name | name in after && name !in files
        ensures exists k :: 0 <= k < |filings| && GetFilename(filings[k].url) == name
      {
        if name in before {
          var k :| 0 <= k < |init| && GetFilename(init[k].url) == name;
          assert filings[k] == init[k];
        } else {
          assert GetFilename(filings[|filings| - 1].url) == name;
        }
      }
    }
  }

  /**
   After the loop, the file name of every filing whose URL can be fetched is taken: each PDF the
   server serves is on disk, downloaded now or earlier.
   */
  lemma {:induction false} DownloadAllCovers(files: Files, filings: seq<LobbyingFiling>, fetch: string -> Web.Fetch<Web.Bytes>)
    ensures var after := DownloadAll(files, filings, fetch).1;
      forall k :: 0 <= k < |filings| && fetch(filings[k].url).Fetched? ==>
        Occupied(after, GetFilename(filings[k].url))
  {
    if filings != [] {
      var init := filings[..|filings| - 1];
      DownloadAllCovers(files, init, fetch);
      var before := DownloadAll(files, init, fetch).1;
      var after := DownloadAll(files, filings, fetch).1;
      assert before.Keys <= after.Keys;
      forall k | 0 <= k < |filings| - 1 && fetch(filings[k].url).Fetched?
        ensures Occupied(after, GetFilename(filings[k].url))
      {
        assert filings[k] == init[k];
      }
    }
  }

  /** When every fetchable filing's name is already taken, the loop downloads nothing. */
  lemma {:induction false} DownloadAllNothingLeft(files: Files, filings: seq<LobbyingFiling>, fetch: string -> Web.Fetch<Web.Bytes>)
    requires forall k :: 0 <= k < |filings| && fetch(filings[k].url).Fetched? ==>
      Occupied(files, GetFilename(filings[k].url))
    ensures DownloadAll(files, filings, fetch) == (0, files)
  {
    if filings != [] {
      var init := filings[..|filings| - 1];
      forall k | 0 <= k < |init| && fetch(init[k].url).Fetched?
        ensures Occupied(files, GetFilename(init[k].url))
      {
        assert init[k] == filings[k];
      }
      DownloadAllNothingLeft(files, init, fetch);
    }
  }

  /** Running the download loop twice over the same filings: the second run downloads nothing. */
  lemma SecondDownloadAddsNothing(files: Files, filings: seq<LobbyingFiling>, fetch: string -> Web.Fetch<Web.Bytes>)
    ensures var after := DownloadAll(files, filings, fetch).1;
      DownloadAll(after, filings, fetch) == (0, after)
  {
    DownloadAllCovers(files, filings, fetch);
    DownloadAllNothingLeft(DownloadAll(files, filings, fetch).1, filings, fetch);
  }

  /** The `pdfs` folder on disk (`mkdir(exist_ok=True)` has run: the folder exists). */
  class Folder {
    const directory: Path
    var files: Files

    constructor (directory: Path, files: Files)
      ensures this.directory == directory && this.files == files
    {
      this.directory := directory;
      this.files := files;
    }

    /** `download_pdf(filing)`: the step function above, on this folder. */
    method DownloadPdf(f: LobbyingFiling, fetch: string -> Web.Fetch<Web.Bytes>) returns (downloaded: bool)
      modifies this
      ensures (downloaded, files) == Download(old(files), f, fetch)
    {
      var path := GetFilepath(f, directory);
      ExistsIffOccupied(files, directory, f);
      if Exists(files, directory, path) {
        return false;
      }
      match fetch(f.url)
      case RequestFailed =>
        downloaded := false;
      case Fetched(body) =>
        files := files[GetFilename(f.url) := body];
        downloaded := true;
    }

    /** The download loop both scripts run: the download rule over every filing, counting downloads. */
    method DownloadEach(filings: seq<LobbyingFiling>, fetch: string -> Web.Fetch<Web.Bytes>) returns (downloaded: nat)
      modifies this
      ensures (downloaded, files) == DownloadAll(old(files), filings, fetch)
    {
      ghost var before := files;
      downloaded := 0;
      for i := 0 to |filings|
        invariant (downloaded, files) == DownloadAll(before, filings[..i], fetch)
      {
        DownloadAllStep(before, filings, i, fetch);
        ghost var next := DownloadAll(before, filings[..i + 1], fetch);
        ghost var step := Download(files, filings[i], fetch);
        assert next == (if step.0 then downloaded + 1 else downloaded, step.1);
        var ok := DownloadPdf(filings[i], fetch);
        if ok {
          downloaded := downloaded + 1;
        }
        assert (downloaded, files) == next;
      }
      assert filings[..|filings|] == filings;
    }
  }
}
