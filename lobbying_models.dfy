/**
 The lobbying filing record shared by the filings scraper and the PDF downloader: a lobbyist's
 name, the filing period and the URL of the filing's PDF, with the CSV row it is written as and
 the file name and path its PDF is saved under.
 */
module LobbyingModels {
  import opened Wrappers
  import Text
  import Csv

  datatype LobbyingFiling = LobbyingFiling(name: string, period: string, url: string)

  /** The row `csv.writer` writes for a filing: name, period and URL, in that order. */
  function ToList(f: LobbyingFiling): (r: seq<Csv.Value>)
    ensures Csv.RenderRow(r) == [f.name, f.period, f.url]
  {
    Csv.Strs([f.name, f.period, f.url])
  }

  /** The index just past the last `/` in `url[..n]`, or 0 when there is none. */
  function AfterLastSlash(url: string, n: nat): (r: nat)
    requires n <= |url|
    ensures r <= n
    ensures r == 0 || url[r - 1] == '/'
    ensures forall k :: r <= k < n ==> url[k] != '/'
  {
    if n == 0 then 0
    else if url[n - 1] == '/' then n
    else AfterLastSlash(url, n - 1)
  }

  /** A string with no `/` character does not contain `"/"`. */
  lemma NoSlash(s: string)
    requires forall k :: 0 <= k < |s| ==> s[k] != '/'
    ensures !Text.Contains(s, "/")
  {
    forall j | 0 <= j < |s|
      ensures !Text.OccursAt(s, "/", j)
    {
      assert s[j..j + 1][0] == s[j];
    }
  }

  /** The text after a slash (or the whole URL) ends the URL, right after that slash. */
  lemma SuffixAfterSlash(url: string, i: nat)
    requires i <= |url| && (i == 0 || url[i - 1] == '/')
    ensures Text.EndsAfter(url, url[i..], "/")
    ensures i > 0 ==> Text.Contains(url, "/")
  {
    if i > 0 {
      assert url[i - 1..i] == "/";
      Text.OccursAtContains(url, "/", i - 1);
    }
  }

  /**
   `url.split('/')[-1]`: the text after the last slash, or the whole URL when it has none. It is
   a suffix of the URL, preceded by a slash unless it is the whole URL, and holds no slash.
   */
  function GetFilename(url: string): (name: string)
    ensures !Text.Contains(name, "/")
    ensures Text.EndsAfter(url, name, "/")
    ensures !Text.Contains(url, "/") ==> name == url
  {
    var i := AfterLastSlash(url, |url|);
    NoSlash(url[i..]);
    SuffixAfterSlash(url, i);
    url[i..]
  }

  /** The file name is the last part of `url.split('/')`. */
  lemma {:induction false} GetFilenameIsLastOfSplit(url: string)
    ensures var parts := Text.Split(url, "/"); GetFilename(url) == parts[|parts| - 1]
  {
    Text.SplitSplitsInto(url, "/");
    LastPartIsFilename(url, Text.Split(url, "/"));
  }

  /** The last of slash-free parts joined by slashes is the file name of the joined text. */
  lemma {:induction false} LastPartIsFilename(url: string, parts: seq<string>)
    requires Text.SplitsInto(url, "/", parts)
    ensures GetFilename(url) == parts[|parts| - 1]
  {
    Text.JoinLast(parts, "/", url);
    FilenameIsLastSegment(url, parts[|parts| - 1]);
  }

  /**
   The slash-free suffix that follows a slash (or is the whole URL) is unique: the file name is
   exactly the text after the last slash.
   */
  lemma FilenameIsLastSegment(url: string, name: string)
    requires Text.EndsAfter(url, name, "/") && !Text.Contains(name, "/")
    ensures name == GetFilename(url)
  {
    var g := GetFilename(url);
    if |name| < |g| {
      SlashInLongerSuffix(url, name, g);
    } else if |g| < |name| {
      SlashInLongerSuffix(url, g, name);
    }
    assert url[|url| - |name|..] == name;
  }

  /** A shorter suffix that follows a slash leaves that slash inside any longer suffix. */
  lemma SlashInLongerSuffix(url: string, short: string, long: string)
    requires Text.EndsAfter(url, short, "/")
    requires |short| < |long| <= |url| && url[|url| - |long|..] == long
    ensures Text.Contains(long, "/")
  {
    var i := |long| - |short| - 1;
    assert long[i..i + 1] == url[|url| - |short| - 1..|url| - |short|];
    Text.OccursAtContains(long, "/", i);
  }

  /** A relative path as pathlib keeps it: its components, `Path("pdfs")` being `["pdfs"]`. */
  type Path = seq<string>

  /**
   `directory / filing.get_filename()`. The file name holds no slash, so it is one component;
   pathlib drops an empty or `.` component, leaving the directory itself.
   */
  function GetFilepath(f: LobbyingFiling, directory: Path): Path
  {
    var name := GetFilename(f.url);
    if name == "" || name == "." then directory else directory + [name]
  }

  /**
   Two filings are saved at the same path exactly when their URLs end in the same file name, or
   both end in a name that denotes the directory itself.
   */
  lemma SamePathIffSameFilename(f: LobbyingFiling, g: LobbyingFiling, directory: Path)
    ensures var a, b := GetFilename(f.url), GetFilename(g.url);
      GetFilepath(f, directory) == GetFilepath(g, directory)
      <==> a == b || ((a == "" || a == ".") && (b == "" || b == "."))
  {
    var a, b := GetFilename(f.url), GetFilename(g.url);
    var pa, pb := GetFilepath(f, directory), GetFilepath(g, directory);
    if pa == pb && !(a == "" || a == ".") && !(b == "" || b == ".") {
      assert pa[|directory|] == a && pb[|directory|] == b;
    }
  }
}
