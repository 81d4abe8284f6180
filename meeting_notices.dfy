/**
 The West Virginia meeting-notices scraper: it loads the notice ids already saved, follows every
 link of the results table to the notice's detail page, builds a notice from the link text and
 the page, and appends the notices whose id is new to the CSV file.
 The listing and the detail pages arrive already parsed.
 */
module MeetingNotices {
  import opened Wrappers
  import opened Seqs
  import Text
  import Csv
  import Web

  const BASE_URL: string := "http://apps.sos.wv.gov/adlaw/meetingnotices/"
  const HEADER: seq<string> := ["id", "date", "time", "agency", "subagency", "location", "purpose", "notes"]
  /** What separates the date from the time in a link's text. */
  const DATE_TIME_SEP: string := " -- "
  const PURPOSE_LABEL: string := "Purpose: "
  const NOTES_LABEL: string := "Notes: "
  const CRLF: string := "\r\n"

  datatype MeetingNotice = MeetingNotice(
    id: string, date: string, time: string, agency: string, subagency: Option<string>,
    location: string, purpose: string, notes: string)

  /** The heading of a detail page: the first `<th>`, its text, and the `<h2>` inside it, if any. */
  datatype Th = Th(text: string, h2: Option<H2>)

  /**
   An `<h2>`: its text; when it holds a `<br>`, the text just before the first one; and the text
   of each `<em>` in it.
   */
  datatype H2 = H2(text: string, beforeBreak: Option<string>, emphasis: seq<string>)

  /** A `<td>` of a detail page: its text, and the text of the `<pre>` inside it, if any. */
  datatype Cell = Cell(text: string, pre: Option<string>)

  /** A detail page: its first `<th>`, if any, and all its `<td>` cells. */
  datatype DetailPage = DetailPage(heading: Option<Th>, details: seq<Cell>)

  /** `s` has no carriage return immediately followed by a line feed. */
  predicate NoCrLf(s: string) {
    forall k :: 0 <= k < |s| - 1 ==> !(s[k] == '\r' && s[k + 1] == '\n')
  }

  lemma NoCrLfIsNotContains(s: string)
    ensures NoCrLf(s) <==> !Text.Contains(s, CRLF)
  {
    if !NoCrLf(s) {
      var k :| 0 <= k < |s| - 1 && s[k] == '\r' && s[k + 1] == '\n';
      assert s[k..k + 2] == CRLF;
      Text.OccursAtContains(s, CRLF, k);
    }
    if Text.Contains(s, CRLF) {
      var k := Text.Find(s, CRLF).value;
      assert s[k..k + 2] == CRLF;
      assert s[k] == '\r' && s[k + 1] == '\n';
    }
  }

  lemma SliceNoCrLf(s: string, lo: nat, hi: nat)
    requires lo <= hi <= |s| && NoCrLf(s)
    ensures NoCrLf(s[lo..hi])
  {
    forall k | 0 <= k < hi - lo - 1
      ensures !(s[lo..hi][k] == '\r' && s[lo..hi][k + 1] == '\n')
    {
      assert s[lo..hi][k] == s[lo + k] && s[lo..hi][k + 1] == s[lo + k + 1];
    }
  }

  /** Joining two strings without the pair creates one only across the seam. */
  lemma ConcatNoCrLf(a: string, b: string)
    requires NoCrLf(a) && NoCrLf(b)
    requires a == [] || b == [] || a[|a| - 1] != '\r' || b[0] != '\n'
    ensures NoCrLf(a + b)
  {
    var s := a + b;
    forall k | 0 <= k < |s| - 1
      ensures !(s[k] == '\r' && s[k + 1] == '\n')
    {
      if k < |a| - 1 {
        assert s[k] == a[k] && s[k + 1] == a[k + 1];
      } else if k >= |a| {
        assert s[k] == b[k - |a|] && s[k + 1] == b[k + 1 - |a|];
      }
    }
  }

  /** Replacing every `\r\n` by a space leaves none. */
  lemma {:induction false} ReplaceCrLfLeavesNone(s: string)
    ensures NoCrLf(Text.ReplaceEach(s, CRLF, " "))
    decreases |s|
  {
    match Text.Find(s, CRLF)
    case None =>
      NoCrLfIsNotContains(s);
    case Some(i) =>
      var rest := Text.ReplaceEach(s[i + 2..], CRLF, " ");
      ReplaceCrLfLeavesNone(s[i + 2..]);
      Text.NoEarlierOccurrence(s, CRLF, i);
      NoCrLfIsNotContains(s[..i]);
      ConcatNoCrLf(s[..i], " ");
      ConcatNoCrLf(s[..i] + " ", rest);
  }

  /** Replacing a pattern by a space does not create the pair. */
  lemma {:induction false} ReplaceBySpaceKeepsNoCrLf(s: string, pat: string)
    requires pat != [] && NoCrLf(s)
    ensures NoCrLf(Text.ReplaceEach(s, pat, " "))
    decreases |s|
  {
    match Text.Find(s, pat)
    case None =>
    case Some(i) =>
      var tail := s[i + |pat|..];
      SuffixNoCrLf(s, i + |pat|);
      ReplaceBySpaceKeepsNoCrLf(tail, pat);
      SpaceBetweenNoCrLf(s, i, Text.ReplaceEach(tail, pat, " "));
  }

  /** A suffix of a string without the pair has none. */
  lemma SuffixNoCrLf(s: string, lo: nat)
    requires lo <= |s| && NoCrLf(s)
    ensures NoCrLf(s[lo..])
  {
    SliceNoCrLf(s, lo, |s|);
    assert s[lo..|s|] == s[lo..];
  }

  /** A prefix, a space, and a string without the pair: the space separates any `\r` from any `\n`. */
  lemma SpaceBetweenNoCrLf(s: string, i: nat, rest: string)
    requires i <= |s| && NoCrLf(s) && NoCrLf(rest)
    ensures NoCrLf(s[..i] + " " + rest)
  {
    SliceNoCrLf(s, 0, i);
    assert s[0..i] == s[..i];
    ConcatNoCrLf(s[..i], " ");
    ConcatNoCrLf(s[..i] + " ", rest);
  }

  /** The location validator: line breaks become spaces, each double space becomes one, and the ends are stripped. */
  function CleanLocation(v: string): string {
    Text.Strip(Text.Replace(Text.Replace(v, CRLF, " "), "  ", " "))
  }

  /** A cleaned location is no longer than the text, starts and ends with a non-space, and holds no line break pair. */
  lemma CleanLocationSpec(v: string)
    ensures |CleanLocation(v)| <= |v|
    ensures var r := CleanLocation(v); r == [] || (!Text.IsSpace(r[0]) && !Text.IsSpace(r[|r| - 1]))
    ensures !Text.Contains(CleanLocation(v), CRLF)
  {
    var s1 := Text.Replace(v, CRLF, " ");
    var s2 := Text.Replace(s1, "  ", " ");
    var r := Text.Strip(s2);
    Text.ReplaceNoLonger(v, CRLF, " ");
    Text.ReplaceNoLonger(s1, "  ", " ");
    ReplaceCrLfLeavesNone(v);
    ReplaceBySpaceKeepsNoCrLf(s1, "  ");
    var i := Text.LeadingSpace(s2);
    SliceNoCrLf(s2, i, i + |r|);
    NoCrLfIsNotContains(r);
  }

  /** The text of the location cell: that of its `<pre>` when it has one. */
  function LocationText(cell: Cell): string {
    cell.pre.GetOr(cell.text)
  }

  /**
   `text.split(marker)[1] if marker in text else text`: without the marker, the whole text; with
   it, the text after the first marker, up to the next marker or the end.
   */
  function AfterLabel(text: string, marker: string): (r: string)
    requires marker != []
    ensures !Text.Contains(text, marker) ==> r == text
    ensures Text.Contains(text, marker) ==>
      var start := Text.Find(text, marker).value + |marker|;
      && start + |r| <= |text|
      && text[start..start + |r|] == r
      && !Text.Contains(r, marker)
      && (start + |r| == |text| || Text.OccursAt(text, marker, start + |r|))
  {
    if Text.Contains(text, marker) then Text.SecondPart(text, marker).value else text
  }

  /**
   The agency and subagency of a detail page. With an `<h2>` in the heading: the text before its
   first `<br>` (or all of it), and the `<em>` texts joined by spaces (None without any). Without
   an `<h2>`: the heading's text, or "Unknown" without a heading, and no subagency.
   */
  function AgencyOf(heading: Option<Th>): (string, Option<string>) {
    match heading
    case None => ("Unknown", None)
    case Some(Th(text, None)) => (text, None)
    case Some(Th(_, Some(h2))) =>
      (h2.beforeBreak.GetOr(h2.text), if h2.emphasis == [] then None else Some(Text.Join(h2.emphasis, " ")))
  }

  /**
   `parse_meeting_notice`: None when the link has no href, its url has no `=`, its text does not
   split into exactly a date and a time, the detail page cannot be fetched, or the page has fewer
   than four cells.
   */
  function ParseMeetingNotice(link: Web.Anchor, fetch: string -> Web.Fetch<DetailPage>): (r: Option<MeetingNotice>)
    ensures r.Some? <==>
      && link.href.Some?
      && Text.Contains(BASE_URL + link.href.value, "=")
      && |Text.Split(link.text, DATE_TIME_SEP)| == 2
      && fetch(BASE_URL + link.href.value).Fetched?
      && |fetch(BASE_URL + link.href.value).body.details| >= 4
  {
    match link.href
    case None => None
    case Some(href) =>
      var url := BASE_URL + href;
      match Text.SecondPart(url, "=")
      case None => None
      case Some(id) =>
        var parts := Text.Split(link.text, DATE_TIME_SEP);
        if |parts| != 2 then None
        else
          match fetch(url)
          case RequestFailed => None
          case Fetched(page) =>
            if |page.details| < 4 then None
            else
              var heading := AgencyOf(page.heading);
              Some(MeetingNotice(
                id, parts[0], parts[1], heading.0, heading.1,
                CleanLocation(LocationText(page.details[1])),
                AfterLabel(page.details[2].text, PURPOSE_LABEL),
                AfterLabel(page.details[3].text, NOTES_LABEL)))
  }

  /** `id` is the text of `url` between its first `=` and the next `=` (or the end). */
  predicate IdOfUrl(url: string, id: string) {
    && Text.Contains(url, "=")
    && var start := Text.Find(url, "=").value + 1;
      var end := start + |id|;
      && end <= |url| && url[start..end] == id && !Text.Contains(id, "=")
      && (end == |url| || url[end] == '=')
  }

  /** A parsed notice's id is the text of its url between the first `=` and the next `=` (or the end). */
  lemma ParsedNoticeId(link: Web.Anchor, fetch: string -> Web.Fetch<DetailPage>)
    requires ParseMeetingNotice(link, fetch).Some?
    ensures IdOfUrl(BASE_URL + link.href.value, ParseMeetingNotice(link, fetch).value.id)
  {
    var url := BASE_URL + link.href.value;
    assert ParseMeetingNotice(link, fetch).value.id == Text.SecondPart(url, "=").value;
    SecondPartOfUrl(url);
  }

  /** The second part of a url split at `=` is the text between its first `=` and the next. */
  lemma SecondPartOfUrl(url: string)
    requires Text.Contains(url, "=")
    ensures IdOfUrl(url, Text.SecondPart(url, "=").value)
  {
    var id := Text.SecondPart(url, "=").value;
    var end := Text.Find(url, "=").value + 1 + |id|;
    if end < |url| {
      assert url[end..end + 1] == "=";
    }
  }

  /** A parsed notice's date and time are the two sides of the separator in the link text. */
  lemma ParsedNoticeDateTime(link: Web.Anchor, fetch: string -> Web.Fetch<DetailPage>)
    requires ParseMeetingNotice(link, fetch).Some?
    ensures var n := ParseMeetingNotice(link, fetch).value;
      && link.text == n.date + DATE_TIME_SEP + n.time
      && !Text.Contains(n.date, DATE_TIME_SEP) && !Text.Contains(n.time, DATE_TIME_SEP)
  {
    var parts := Text.Split(link.text, DATE_TIME_SEP);
    assert Text.Join(parts, DATE_TIME_SEP) == parts[0] + DATE_TIME_SEP + parts[1];
  }

  /**
   The other fields of a parsed notice come from the detail page: the agency from its heading, the
   cleaned location from the second cell, and the purpose and notes after their labels in the third
   and fourth.
   */
  lemma ParsedNoticePageFields(link: Web.Anchor, fetch: string -> Web.Fetch<DetailPage>)
    requires ParseMeetingNotice(link, fetch).Some?
    ensures var n := ParseMeetingNotice(link, fetch).value;
      var page := fetch(BASE_URL + link.href.value).body;
      && (n.agency, n.subagency) == AgencyOf(page.heading)
      && n.location == CleanLocation(LocationText(page.details[1]))
      && n.purpose == AfterLabel(page.details[2].text, PURPOSE_LABEL)
      && n.notes == AfterLabel(page.details[3].text, NOTES_LABEL)
  {
  }

  function ParseWith(fetch: string -> Web.Fetch<DetailPage>): Web.Anchor -> Option<MeetingNotice> {
    link => ParseMeetingNotice(link, fetch)
  }

  /**
   What `scrape_notices` returns: no notices without a results table, otherwise the notice of
   every link that parses, in link order. A failed request for the listing is not caught.
   */
  function Scraped(listing: Web.Fetch<Option<seq<Web.Anchor>>>, fetch: string -> Web.Fetch<DetailPage>): Result<seq<MeetingNotice>> {
    match listing
    case RequestFailed => Failure(RequestError)
    case Fetched(None) => Success([])
    case Fetched(Some(links)) => Success(MapSome(links, ParseWith(fetch)))
  }

  /** Every scraped notice is the parse of a link of the table, and every link that parses gives its notice. */
  lemma ScrapedNoticesFromLinks(links: seq<Web.Anchor>, fetch: string -> Web.Fetch<DetailPage>)
    ensures forall n :: n in Scraped(Web.Fetched(Some(links)), fetch).value ==>
      exists k :: 0 <= k < |links| && ParseMeetingNotice(links[k], fetch) == Some(n)
    ensures forall k :: 0 <= k < |links| && ParseMeetingNotice(links[k], fetch).Some? ==>
      ParseMeetingNotice(links[k], fetch).value in Scraped(Web.Fetched(Some(links)), fetch).value
  {
    MapSomeMembers(links, ParseWith(fetch));
  }

  /** The CSV row of a notice: its eight fields in header order, a missing subagency as an empty cell. */
  function ToList(n: MeetingNotice): (vs: seq<Csv.Value>)
    ensures |vs| == |HEADER|
    ensures Csv.RenderRow(vs) == [n.id, n.date, n.time, n.agency, n.subagency.GetOr(""), n.location, n.purpose, n.notes]
    ensures vs[4] == Csv.Null <==> n.subagency.None?
  {
    [Csv.Str(n.id), Csv.Str(n.date), Csv.Str(n.time), Csv.Str(n.agency),
     match n.subagency case Some(s) => Csv.Str(s) case None => Csv.Null,
     Csv.Str(n.location), Csv.Str(n.purpose), Csv.Str(n.notes)]
  }

  /** A row written by `ToList` under `HEADER` reads back its id. */
  lemma ToListReadsBackId(n: MeetingNotice)
    ensures Csv.Field(HEADER, Csv.RenderRow(ToList(n)), "id") == Some(n.id)
  {
    assert HEADER[1..] == ["date", "time", "agency", "subagency", "location", "purpose", "notes"];
    assert "id" !in HEADER[1..];
    assert Csv.LastIndex(HEADER, "id") == 0;
  }

  function NoticeRows(notices: seq<MeetingNotice>): seq<seq<string>> {
    Csv.Rows(notices, ToList)
  }

  /** The ids `load_existing_notices` collects: the id cell of every data row that has one. */
  function LoadIds(file: seq<seq<string>>): Result<set<string>> {
    Csv.Keys(file, "id")
  }

  /** The id set after `load_existing_notices`: unchanged for a missing file (which is created with the header), read from an existing one. */
  function Loaded(present: bool, rows: seq<seq<string>>, before: set<string>): Result<set<string>> {
    if present then LoadIds(rows) else Success(before)
  }

  function LoadedRows(present: bool, rows: seq<seq<string>>): seq<seq<string>> {
    if present then rows else [HEADER]
  }

  function IdNotIn(ids: set<string>): MeetingNotice -> bool {
    (n: MeetingNotice) => n.id !in ids
  }

  /** The notices `save_new_notices` writes: those whose id is not known. */
  function NewNotices(notices: seq<MeetingNotice>, previous: set<string>): seq<MeetingNotice> {
    Filter(notices, IdNotIn(previous))
  }

  /**
   The new notices keep the scraped order, none has a known id, and every scraped notice with an
   unknown id is kept, as many times as it was scraped.
   */
  lemma NewNoticesSpec(notices: seq<MeetingNotice>, previous: set<string>)
    ensures IsSubsequence(NewNotices(notices, previous), notices)
    ensures forall n :: n in NewNotices(notices, previous) <==> n in notices && n.id !in previous
    ensures forall n :: n in notices ==>
      multiset(NewNotices(notices, previous))[n] == if n.id in previous then 0 else multiset(notices)[n]
  {
    FilterIsSubsequence(notices, IdNotIn(previous));
    FilterMembers(notices, IdNotIn(previous));
    FilterCounts(notices, IdNotIn(previous));
    forall n | n in notices && n.id !in previous
      ensures n in NewNotices(notices, previous)
    {
      assert multiset(NewNotices(notices, previous))[n] > 0;
    }
  }

  /** Appending notice rows to a file whose header has an id column forgets no id. */
  lemma KnownIdsStayKnown(rows: seq<seq<string>>, added: seq<MeetingNotice>, u: string)
    requires rows != [] && "id" in rows[0]
    requires LoadIds(rows).Success? && u in LoadIds(rows).value
    ensures LoadIds(rows + NoticeRows(added)).Success? && u in LoadIds(rows + NoticeRows(added)).value
  {
    Csv.ColumnKeepsCells(rows, NoticeRows(added), "id");
  }

  /** After appending notice rows to a file under `HEADER`, every appended id is known. */
  lemma AppendedIdsAreKnown(rows: seq<seq<string>>, added: seq<MeetingNotice>, k: nat)
    requires rows != [] && rows[0] == HEADER && k < |added|
    ensures LoadIds(rows + NoticeRows(added)).Success? && added[k].id in LoadIds(rows + NoticeRows(added)).value
  {
    ToListReadsBackId(added[k]);
    Csv.ColumnHasAppendedField(rows, NoticeRows(added), "id", k);
  }

  /** A scraped notice's id is known once the new notices are appended to a file under `HEADER`. */
  lemma IdKnownAfterSave(rows: seq<seq<string>>, notices: seq<MeetingNotice>, n: MeetingNotice)
    requires rows != [] && rows[0] == HEADER && n in notices
    ensures LoadIds(rows).Success?
    ensures var after := rows + NoticeRows(NewNotices(notices, LoadIds(rows).value));
      LoadIds(after).Success? && n.id in LoadIds(after).value
  {
    var keys := LoadIds(rows).value;
    var added := NewNotices(notices, keys);
    if n.id in keys {
      KnownIdsStayKnown(rows, added, n.id);
    } else {
      NewNoticesSpec(notices, keys);
      var k :| 0 <= k < |added| && added[k] == n;
      AppendedIdsAreKnown(rows, added, k);
    }
  }

  /**
   Saving the same notices a second time adds nothing: once the new notices are appended to a file
   under `HEADER`, reloading the ids knows every one of them.
   */
  lemma SecondSaveAddsNothing(rows: seq<seq<string>>, notices: seq<MeetingNotice>)
    requires rows != [] && rows[0] == HEADER
    ensures LoadIds(rows).Success?
    ensures var after := rows + NoticeRows(NewNotices(notices, LoadIds(rows).value));
      LoadIds(after).Success? && NewNotices(notices, LoadIds(after).value) == []
  {
    var after := rows + NoticeRows(NewNotices(notices, LoadIds(rows).value));
    assert LoadIds(after).Success? by {
      Csv.ColumnKeepsCells(rows, NoticeRows(NewNotices(notices, LoadIds(rows).value)), "id");
    }
    var keys2 := LoadIds(after).value;
    forall n | n in notices
      ensures n.id in keys2
    {
      IdKnownAfterSave(rows, notices, n);
    }
    FilterNone(notices, IdNotIn(keys2));
  }

  class MeetingNoticesScraper {
    var previousIds: set<string>
    /** `meeting_notices.csv`. */
    const csvFile: Csv.CsvFile

    ghost predicate Valid()
      reads this, csvFile
    {
      csvFile.Valid()
    }

    constructor (csvFile: Csv.CsvFile)
      requires csvFile.Valid()
      ensures Valid() && previousIds == {} && this.csvFile == csvFile
    {
      previousIds := {};
      this.csvFile := csvFile;
    }

    /** `load_existing_notices`: create a missing file with the header, or read the ids of an existing one. */
    method LoadExistingNotices() returns (outcome: Outcome)
      requires Valid()
      modifies this, csvFile
      ensures Valid()
      ensures var loaded := Loaded(old(csvFile.present), old(csvFile.rows), old(previousIds));
        && (outcome.Pass? <==> loaded.Success?)
        && (loaded.Failure? ==> outcome.error == loaded.error && previousIds == old(previousIds))
        && (loaded.Success? ==> previousIds == loaded.value)
      ensures old(csvFile.present) ==> unchanged(csvFile)
      ensures !old(csvFile.present) ==> csvFile.present && csvFile.rows == [HEADER]
    {
      if !csvFile.present {
        csvFile.WriteText(HEADER);
        return Pass;
      }
      match LoadIds(csvFile.rows)
      case Failure(e) =>
        outcome := Fail(e);
      case Success(ids) =>
        previousIds := ids;
        outcome := Pass;
    }

    /** `scrape_notices`: the notice of every link of the results table that parses, in link order. */
    method ScrapeNotices(listing: Web.Fetch<Option<seq<Web.Anchor>>>, fetch: string -> Web.Fetch<DetailPage>)
      returns (r: Result<seq<MeetingNotice>>)
      ensures r == Scraped(listing, fetch)
    {
      match listing
      case RequestFailed =>
        return Failure(RequestError);
      case Fetched(None) =>
        return Success([]);
      case Fetched(Some(links)) =>
        var notices := [];
        for i := 0 to |links|
          invariant notices == MapSome(links[..i], ParseWith(fetch))
        {
          assert links[..i + 1][..i] == links[..i];
          var notice := ParseMeetingNotice(links[i], fetch);
          if notice.Some? {
            notices := notices + [notice.value];
          }
        }
        assert links[..|links|] == links;
        return Success(notices);
    }

    /** `save_new_notices`: append the notices whose id is not known, in order, and return how many. */
    method SaveNewNotices(notices: seq<MeetingNotice>) returns (count: int)
      requires Valid()
      modifies csvFile
      ensures Valid()
      ensures count == |NewNotices(notices, previousIds)|
      ensures NewNotices(notices, previousIds) == [] ==> unchanged(csvFile)
      ensures NewNotices(notices, previousIds) != [] ==>
        && csvFile.present
        && csvFile.rows == old(csvFile.rows) + NoticeRows(NewNotices(notices, previousIds))
    {
      var added := NewNotices(notices, previousIds);
      if added == [] {
        return 0;
      }
      csvFile.Open(true);
      for i := 0 to |added|
        invariant csvFile.Valid() && csvFile.present
        invariant csvFile.rows == old(csvFile.rows) + NoticeRows(added[..i])
      {
        csvFile.WriteRow(ToList(added[i]));
        assert NoticeRows(added[..i + 1]) == NoticeRows(added[..i]) + [Csv.RenderRow(ToList(added[i]))];
      }
      assert added[..|added|] == added;
      return |added|;
    }

    /**
     `run`: load the known ids, scrape the notices, append the new ones. A KeyError while loading
     ends the run before anything else; a failed request for the listing ends it after loading.
     */
    method Run(listing: Web.Fetch<Option<seq<Web.Anchor>>>, fetch: string -> Web.Fetch<DetailPage>)
      returns (outcome: Outcome)
      requires Valid()
      modifies this, csvFile
      ensures Valid()
      ensures var loaded := Loaded(old(csvFile.present), old(csvFile.rows), old(previousIds));
        && (loaded.Failure? ==> outcome == Fail(loaded.error) && unchanged(csvFile))
        && (loaded.Success? ==>
          && previousIds == loaded.value
          && csvFile.present
          && match Scraped(listing, fetch)
             case Failure(e) =>
               outcome == Fail(e) && csvFile.rows == LoadedRows(old(csvFile.present), old(csvFile.rows))
             case Success(notices) =>
               && outcome == Pass
               && csvFile.rows == LoadedRows(old(csvFile.present), old(csvFile.rows)) + NoticeRows(NewNotices(notices, loaded.value)))
    {
      outcome := LoadExistingNotices();
      if outcome.Fail? {
        return;
      }
      var scraped := ScrapeNotices(listing, fetch);
      if scraped.Failure? {
        return Fail(scraped.error);
      }
      var count := SaveNewNotices(scraped.value);
    }
  }
}
