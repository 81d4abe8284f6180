/**
 The WVU campus crime log scraper. It reads the ids already in `crime_log.csv`, turns every
 `<li class="incident">` of the crime log page into a record (id and title from the heading, the
 other fields from the incident's paragraphs), keeps one copy of each distinct record, and
 appends the records whose id is new to the file.
 */
module CrimeLog {
  import opened Wrappers
  import opened Seqs
  import Text
  import Web
  import Csv

  const CSV_FILE := "crime_log.csv"
  /** The separator between a label and its value, in the heading and in every paragraph. */
  const SEP := ": "
  /** The label of the paragraph that only some incidents have. */
  const BUILDING := "Building:"

  /** A `<p>` of an incident: its text, and the text of its first `<strong>` element, if any. */
  datatype Paragraph = Paragraph(text: string, strong: Option<string>)

  /** An `<li class="incident">`: the text of its first `<h4>`, if any, and its `<p>` elements. */
  datatype Incident = Incident(heading: Option<string>, paragraphs: seq<Paragraph>)

  /**
   One crime log entry. `datetime` is the parsed date as `csv.writer` writes it (`str()` of the
   datetime); `building` is None for an incident without a building paragraph.
   */
  datatype CrimeRecord = CrimeRecord(
    id: string, title: string, year: string, datetime: string,
    building: Option<string>, address: string, outcome: string)

  /**
   `id, title = incident.find('h4').text.split(': ')`: a missing heading raises AttributeError, a
   heading that does not split into exactly two parts raises ValueError.
   */
  function IdAndTitle(heading: Option<string>): (r: Result<(string, string)>)
    ensures heading.None? ==> r == Failure(AttributeError)
    ensures heading.Some? && r.Failure? ==> r.error == ValueError
  {
    match heading
    case None => Failure(AttributeError)
    case Some(h) =>
      var parts := Text.Split(h, SEP);
      if |parts| != 2 then Failure(ValueError) else Success((parts[0], parts[1]))
  }

  /**
   A heading is read exactly when it splits into two parts; the id and the title then hold no
   `": "` and make up the heading with one `": "` between them.
   */
  lemma IdAndTitleSpec(h: string)
    ensures IdAndTitle(Some(h)).Success? <==> |Text.Split(h, SEP)| == 2
    ensures IdAndTitle(Some(h)).Success? ==> var it := IdAndTitle(Some(h)).value;
      && h == it.0 + SEP + it.1
      && !Text.Contains(it.0, SEP) && !Text.Contains(it.1, SEP)
  {
    var parts := Text.Split(h, SEP);
    if |parts| == 2 {
      assert Text.Join(parts[1..], SEP) == parts[1];
    }
  }

  /** Text made of two pieces without `": "`, joined by `": "`, splits back into those two pieces. */
  lemma SplitAtSep(a: string, b: string)
    requires !Text.Contains(a, SEP) && !Text.Contains(b, SEP)
    ensures Text.Split(a + SEP + b, SEP) == [a, b]
  {
    var h := a + SEP + b;
    assert Text.OccursAt(h, SEP, |a|) by {
      assert h[|a|..|a| + 2] == SEP;
    }
    forall j | 0 <= j < |a|
      ensures !Text.OccursAt(h, SEP, j)
    {
      if j + 2 <= |a| {
        assert !Text.OccursAt(a, SEP, j);
        assert h[j..j + 2] == a[j..j + 2];
      } else {
        assert h[j..j + 2][1] == h[j + 1] == ':';
      }
    }
    assert Text.Find(h, SEP) == Some(|a|);
    Text.SplitUnfold(h, SEP);
    assert h[..|a|] == a && h[|a| + 2..] == b;
    assert Text.Split(b, SEP) == [b];
  }

  /** A heading made of an id and a title, neither holding `": "`, reads back as that id and title. */
  lemma HeadingRoundTrip(id: string, title: string)
    requires !Text.Contains(id, SEP) && !Text.Contains(title, SEP)
    ensures IdAndTitle(Some(id + SEP + title)) == Success((id, title))
  {
    SplitAtSep(id, title);
  }

  /** A string without a colon does not contain `": "`. */
  lemma NoSep(s: string)
    requires forall k :: 0 <= k < |s| ==> s[k] != ':'
    ensures !Text.Contains(s, SEP)
  {
    forall j | 0 <= j < |s|
      ensures !Text.OccursAt(s, SEP, j)
    {
      if j + 2 <= |s| {
        assert s[j..j + 2][0] == s[j];
      }
    }
  }

  /** The stripped text of a paragraph's `<strong>`, for the paragraphs that have one. */
  function StrongKey(p: Paragraph): Option<string> {
    match p.strong
    case Some(s) => Some(Text.Strip(s))
    case None => None
  }

  /** `[x.find('strong').text.strip() for x in ps if x.find('strong')]`. */
  function Keys(ps: seq<Paragraph>): (keys: seq<string>)
    ensures forall key :: key in keys <==>
      exists k :: 0 <= k < |ps| && ps[k].strong.Some? && Text.Strip(ps[k].strong.value) == key
  {
    MapSomeMembers(ps, StrongKey);
    MapSome(ps, StrongKey)
  }

  /**
   `ps[k].text.split(": ")[1]`, or None where that raises IndexError: the paragraph is missing, or
   its text holds no `": "`.
   */
  function FieldAt(ps: seq<Paragraph>, k: nat): Option<string> {
    if k < |ps| then Text.SecondPart(ps[k].text, SEP) else None
  }

  /** A field is the second part of its paragraph's text split at `": "`, when there is one. */
  lemma FieldAtIsSplit(ps: seq<Paragraph>, k: nat)
    ensures FieldAt(ps, k).Some? <==> k < |ps| && |Text.Split(ps[k].text, SEP)| >= 2
    ensures FieldAt(ps, k).Some? ==> FieldAt(ps, k).value == Text.Split(ps[k].text, SEP)[1]
  {
    if k < |ps| {
      Text.SecondPartIsSplit(ps[k].text, SEP);
    }
  }

  /** A paragraph `<p><strong>name:</strong> value</p>`. */
  function Labelled(name: string, value: string): Paragraph {
    Paragraph(name + SEP + value, Some(name + ":"))
  }

  /** The field of such a paragraph is its value. */
  lemma LabelledField(ps: seq<Paragraph>, k: nat, name: string, value: string)
    requires k < |ps| && ps[k] == Labelled(name, value)
    requires !Text.Contains(name, SEP) && !Text.Contains(value, SEP)
    ensures FieldAt(ps, k) == Some(value)
  {
    SplitAtSep(name, value);
    FieldAtIsSplit(ps, k);
  }

  /** Where the address is: one paragraph further down when the incident names a building. */
  function AddressAt(labelled: bool): nat {
    if labelled then 3 else 2
  }

  /**
   The record the inner loop builds for an incident with paragraphs. The year is the first
   paragraph's text and the date the second paragraph's value, parsed. With a `Building:` label the
   building, address and outcome are the values of paragraphs 2, 3 and 4; without one there is no
   building and the address and outcome are the values of paragraphs 2 and 3. The date is read (and
   parsed, which may raise ValueError) before the other fields, which may raise IndexError.
   */
  function RecordFrom(id: string, title: string, ps: seq<Paragraph>, parseDate: string -> Option<string>): (r: Result<CrimeRecord>)
    requires ps != []
    ensures var labelled := BUILDING in Keys(ps);
      r.Success? <==>
        && FieldAt(ps, 1).Some? && parseDate(FieldAt(ps, 1).value).Some?
        && FieldAt(ps, 2).Some? && FieldAt(ps, 3).Some? && (labelled ==> FieldAt(ps, 4).Some?)
    ensures r.Failure? ==>
      r.error == if FieldAt(ps, 1).Some? && parseDate(FieldAt(ps, 1).value).None? then ValueError else IndexError
    ensures var labelled := BUILDING in Keys(ps);
      var a := AddressAt(labelled);
      r.Success? ==>
        && r.value.id == id && r.value.title == title && r.value.year == ps[0].text
        && parseDate(FieldAt(ps, 1).value) == Some(r.value.datetime)
        && (r.value.building.Some? <==> labelled)
        && (labelled ==> r.value.building == FieldAt(ps, 2))
        && FieldAt(ps, a) == Some(r.value.address)
        && FieldAt(ps, a + 1) == Some(r.value.outcome)
  {
    var labelled := BUILDING in Keys(ps);
    match FieldAt(ps, 1)
    case None => Failure(IndexError)
    case Some(when) =>
      match parseDate(when)
      case None => Failure(ValueError)
      case Some(datetime) =>
        if labelled then
          match (FieldAt(ps, 2), FieldAt(ps, 3), FieldAt(ps, 4))
          case (Some(building), Some(address), Some(outcome)) =>
            Success(CrimeRecord(id, title, ps[0].text, datetime, Some(building), address, outcome))
          case _ => Failure(IndexError)
        else
          match (FieldAt(ps, 2), FieldAt(ps, 3))
          case (Some(address), Some(outcome)) =>
            Success(CrimeRecord(id, title, ps[0].text, datetime, None, address, outcome))
          case _ => Failure(IndexError)
  }

  /**
   What one incident contributes: an error, nothing (no paragraphs, so the inner loop does not
   run), or its record.
   */
  function IncidentRecord(incident: Incident, parseDate: string -> Option<string>): (r: Result<Option<CrimeRecord>>)
    ensures IdAndTitle(incident.heading).Failure? ==> r == Failure(IdAndTitle(incident.heading).error)
    ensures r == Success(None) <==> IdAndTitle(incident.heading).Success? && incident.paragraphs == []
    ensures r.Success? && r.value.Some? ==>
      && IdAndTitle(incident.heading) == Success((r.value.value.id, r.value.value.title))
      && incident.paragraphs != []
  {
    match IdAndTitle(incident.heading)
    case Failure(e) => Failure(e)
    case Success(it) =>
      if incident.paragraphs == [] then Success(None)
      else
        match RecordFrom(it.0, it.1, incident.paragraphs, parseDate)
        case Failure(e) => Failure(e)
        case Success(rec) => Success(Some(rec))
  }

  function Reader(parseDate: string -> Option<string>): Incident -> Result<Option<CrimeRecord>> {
    (incident: Incident) => IncidentRecord(incident, parseDate)
  }

  /** Text that holds no `": "`. */
  predicate SepFree(s: string) {
    !Text.Contains(s, SEP)
  }

  /** A label other than the building label. */
  predicate OtherLabel(name: string) {
    SepFree(name) && Text.Strip(name + ":") != BUILDING
  }

  /**
   The paragraphs of a record as the crime log page lays them out: the year, then labelled
   paragraphs for the date, the building (only when there is one), the address and the outcome.
   */
  function ParagraphsOf(rec: CrimeRecord, date: string, dateName: string, addressName: string, outcomeName: string): seq<Paragraph> {
    var year, when := Paragraph(rec.year, None), Labelled(dateName, date);
    var address, outcome := Labelled(addressName, rec.address), Labelled(outcomeName, rec.outcome);
    match rec.building
    case Some(b) => [year, when, Labelled("Building", b), address, outcome]
    case None => [year, when, address, outcome]
  }

  /** The building paragraph's label is `Building:`, and its name holds no `": "`. */
  lemma BuildingLabel()
    ensures Text.Strip("Building" + ":") == BUILDING
    ensures SepFree("Building")
  {
    assert "Building" + ":" == BUILDING;
    assert BUILDING[0] == 'B' && BUILDING[|BUILDING| - 1] == ':';
    assert Text.LeadingSpace(BUILDING) == 0;
    assert Text.TrailingSpace(BUILDING) == 0;
    assert BUILDING[0..][..|BUILDING|] == BUILDING;
    NoSep("Building");
  }

  /** The fields read from the paragraphs of a record with a building are its values, in their places. */
  lemma WithBuildingFields(rec: CrimeRecord, date: string, dateName: string, addressName: string, outcomeName: string)
    requires rec.building.Some?
    requires SepFree(date) && SepFree(rec.building.value) && SepFree(rec.address) && SepFree(rec.outcome)
    requires SepFree(dateName) && SepFree(addressName) && SepFree(outcomeName)
    ensures var ps := ParagraphsOf(rec, date, dateName, addressName, outcomeName);
      && FieldAt(ps, 1) == Some(date) && FieldAt(ps, 2) == rec.building && BUILDING in Keys(ps)
      && FieldAt(ps, 3) == Some(rec.address) && FieldAt(ps, 4) == Some(rec.outcome)
  {
    var ps := ParagraphsOf(rec, date, dateName, addressName, outcomeName);
    LabelledField(ps, 1, dateName, date);
    BuildingParagraph(ps, rec.building.value);
    TrailingFields(ps, 3, addressName, rec.address, outcomeName, rec.outcome);
  }

  /** The fields read from the paragraphs of a record without a building are its values, in their places. */
  lemma WithoutBuildingFields(rec: CrimeRecord, date: string, dateName: string, addressName: string, outcomeName: string)
    requires rec.building.None?
    requires SepFree(date) && SepFree(rec.address) && SepFree(rec.outcome)
    requires OtherLabel(dateName) && OtherLabel(addressName) && OtherLabel(outcomeName)
    ensures var ps := ParagraphsOf(rec, date, dateName, addressName, outcomeName);
      && FieldAt(ps, 1) == Some(date) && BUILDING !in Keys(ps)
      && FieldAt(ps, 2) == Some(rec.address) && FieldAt(ps, 3) == Some(rec.outcome)
  {
    var ps := ParagraphsOf(rec, date, dateName, addressName, outcomeName);
    LabelledField(ps, 1, dateName, date);
    NoBuildingParagraph(ps, dateName, addressName, outcomeName);
    TrailingFields(ps, 2, addressName, rec.address, outcomeName, rec.outcome);
  }

  /** The address and outcome paragraphs, in places `a` and `a + 1`, are read as their values. */
  lemma TrailingFields(ps: seq<Paragraph>, a: nat, addressName: string, address: string, outcomeName: string, outcome: string)
    requires a + 1 < |ps| && ps[a] == Labelled(addressName, address) && ps[a + 1] == Labelled(outcomeName, outcome)
    requires SepFree(addressName) && SepFree(address) && SepFree(outcomeName) && SepFree(outcome)
    ensures FieldAt(ps, a) == Some(address) && FieldAt(ps, a + 1) == Some(outcome)
  {
    LabelledField(ps, a, addressName, address);
    LabelledField(ps, a + 1, outcomeName, outcome);
  }

  /** A building paragraph in third place is read as the building, and labels the incident. */
  lemma BuildingParagraph(ps: seq<Paragraph>, building: string)
    requires |ps| > 2 && ps[2] == Labelled("Building", building) && SepFree(building)
    ensures FieldAt(ps, 2) == Some(building)
    ensures BUILDING in Keys(ps)
  {
    BuildingLabel();
    LabelledField(ps, 2, "Building", building);
    assert ps[2].strong == Some("Building" + ":");
  }

  /** Without a paragraph labelled `Building:` the incident has no building. */
  lemma NoBuildingParagraph(ps: seq<Paragraph>, name1: string, name2: string, name3: string)
    requires |ps| == 4 && ps[0].strong.None?
    requires ps[1].strong == Some(name1 + ":") && Text.Strip(name1 + ":") != BUILDING
    requires ps[2].strong == Some(name2 + ":") && Text.Strip(name2 + ":") != BUILDING
    requires ps[3].strong == Some(name3 + ":") && Text.Strip(name3 + ":") != BUILDING
    ensures BUILDING !in Keys(ps)
  {
  }

  /**
   Reading such paragraphs gives back the record, provided no value holds `": "`, the date text
   parses to the record's date, and no other label is `Building:`.
   */
  lemma RecordRoundTrip(rec: CrimeRecord, date: string, dateName: string, addressName: string, outcomeName: string,
                        parseDate: string -> Option<string>)
    requires parseDate(date) == Some(rec.datetime)
    requires SepFree(date) && SepFree(rec.building.GetOr("")) && SepFree(rec.address) && SepFree(rec.outcome)
    requires OtherLabel(dateName) && OtherLabel(addressName) && OtherLabel(outcomeName)
    ensures RecordFrom(rec.id, rec.title, ParagraphsOf(rec, date, dateName, addressName, outcomeName), parseDate) == Success(rec)
  {
    if rec.building.Some? {
      WithBuildingFields(rec, date, dateName, addressName, outcomeName);
    } else {
      WithoutBuildingFields(rec, date, dateName, addressName, outcomeName);
    }
  }

  /** An incident with the heading `id: title` and the paragraphs of a record. */
  function IncidentOf(rec: CrimeRecord, date: string, dateName: string, addressName: string, outcomeName: string): Incident {
    Incident(Some(rec.id + SEP + rec.title), ParagraphsOf(rec, date, dateName, addressName, outcomeName))
  }

  /** Reading the incident laid out from a record gives back that record, under the same provisos. */
  lemma IncidentRoundTrip(rec: CrimeRecord, date: string, dateName: string, addressName: string, outcomeName: string,
                          parseDate: string -> Option<string>)
    requires parseDate(date) == Some(rec.datetime)
    requires SepFree(rec.id) && SepFree(rec.title)
    requires SepFree(date) && SepFree(rec.building.GetOr("")) && SepFree(rec.address) && SepFree(rec.outcome)
    requires OtherLabel(dateName) && OtherLabel(addressName) && OtherLabel(outcomeName)
    ensures IncidentRecord(IncidentOf(rec, date, dateName, addressName, outcomeName), parseDate) == Success(Some(rec))
  {
    HeadingRoundTrip(rec.id, rec.title);
    RecordRoundTrip(rec, date, dateName, addressName, outcomeName, parseDate);
  }

  /** The records of the incidents in page order (one per incident with paragraphs), or the first error. */
  function Records(incidents: seq<Incident>, parseDate: string -> Option<string>): Result<seq<CrimeRecord>> {
    Collect(incidents, Reader(parseDate))
  }

  /** `results`: one copy of each distinct record, in the order first seen. */
  function Results(incidents: seq<Incident>, parseDate: string -> Option<string>): Result<seq<CrimeRecord>> {
    match Records(incidents, parseDate)
    case Failure(e) => Failure(e)
    case Success(records) => Success(Dedup(records))
  }

  /**
   The results are read exactly when every incident is. They then hold no two equal records, hold
   exactly the records the incidents give, and keep them in the order of their first occurrence.
   */
  lemma ResultsSpec(incidents: seq<Incident>, parseDate: string -> Option<string>)
    ensures Results(incidents, parseDate).Success? <==>
      forall k :: 0 <= k < |incidents| ==> IncidentRecord(incidents[k], parseDate).Success?
    ensures Results(incidents, parseDate).Success? ==> var results := Results(incidents, parseDate).value;
      && NoDuplicates(results)
      && (forall rec :: rec in results <==>
            exists k :: 0 <= k < |incidents| && IncidentRecord(incidents[k], parseDate) == Success(Some(rec)))
      && forall i, j :: 0 <= i < j < |results| ==>
            var records := Records(incidents, parseDate).value;
            FirstIndex(records, results[i]) < FirstIndex(records, results[j])
  {
    CollectSpec(incidents, Reader(parseDate));
    if Records(incidents, parseDate).Success? {
      DedupFirstOccurrenceOrder(Records(incidents, parseDate).value);
    }
  }

  /** A run stops at the first incident that cannot be read, with that incident's error. */
  lemma ScrapeStopsAtFirstError(incidents: seq<Incident>, parseDate: string -> Option<string>)
    requires Results(incidents, parseDate).Failure?
    ensures exists k :: && 0 <= k < |incidents|
                        && IncidentRecord(incidents[k], parseDate) == Failure(Results(incidents, parseDate).error)
                        && forall j :: 0 <= j < k ==> IncidentRecord(incidents[j], parseDate).Success?
  {
    CollectFirstError(incidents, Reader(parseDate));
  }

  /**
   The two loops of the script: for each incident, split the heading, then for each of its
   paragraphs build the record again and append it to `results` unless an equal one is there.
   */
  method ScrapeResults(incidents: seq<Incident>, parseDate: string -> Option<string>) returns (r: Result<seq<CrimeRecord>>)
    ensures r == Results(incidents, parseDate)
  {
    var results: seq<CrimeRecord> := [];
    for i := 0 to |incidents|
      invariant Records(incidents[..i], parseDate).Success?
      invariant results == Dedup(Records(incidents[..i], parseDate).value)
    {
      CollectStep(incidents, i, Reader(parseDate));
      ghost var prev := Records(incidents[..i], parseDate).value;
      var incident := incidents[i];
      var heading := IdAndTitle(incident.heading);
      if heading.Failure? {
        CollectKeepsFailure(incidents, i + 1, Reader(parseDate));
        return Failure(heading.error);
      }
      var id, title := heading.value.0, heading.value.1;
      var ps := incident.paragraphs;
      ghost var before := results;
      for j := 0 to |ps|
        invariant j == 0 ==> results == before
        invariant j > 0 ==> && RecordFrom(id, title, ps, parseDate).Success?
                            && var rec := RecordFrom(id, title, ps, parseDate).value;
                               results == if rec in before then before else before + [rec]
      {
        var result := RecordFrom(id, title, ps, parseDate);
        if result.Failure? {
          assert IncidentRecord(incident, parseDate) == Failure(result.error);
          CollectKeepsFailure(incidents, i + 1, Reader(parseDate));
          return Failure(result.error);
        }
        if result.value !in results {
          results := results + [result.value];
        }
      }
      if ps != [] {
        var rec := RecordFrom(id, title, ps, parseDate).value;
        assert (prev + [rec])[..|prev|] == prev;
      }
    }
    assert incidents[..|incidents|] == incidents;
    return Success(results);
  }

  /** The CSV row of a record: its seven fields in order, no building as an empty cell. */
  function ToList(rec: CrimeRecord): (vs: seq<Csv.Value>)
    ensures |vs| == 7
    ensures Csv.RenderRow(vs) == [rec.id, rec.title, rec.year, rec.datetime, rec.building.GetOr(""), rec.address, rec.outcome]
    ensures vs[4] == Csv.Null <==> rec.building.None?
  {
    [Csv.Str(rec.id), Csv.Str(rec.title), Csv.Str(rec.year), Csv.Str(rec.datetime),
     match rec.building case Some(b) => Csv.Str(b) case None => Csv.Null,
     Csv.Str(rec.address), Csv.Str(rec.outcome)]
  }

  function IncidentRows(records: seq<CrimeRecord>): seq<seq<string>> {
    Csv.Rows(records, ToList)
  }

  /** `previous_ids`: the id cell of every data row that has one (a short row's None matches no id). */
  function LoadIds(file: seq<seq<string>>): Result<set<string>> {
    Csv.Keys(file, "id")
  }

  function IdNotIn(ids: set<string>): CrimeRecord -> bool {
    (rec: CrimeRecord) => rec.id !in ids
  }

  /** `new_incidents = [x for x in results if x[0] not in previous_ids]`. */
  function NewIncidents(results: seq<CrimeRecord>, previous: set<string>): seq<CrimeRecord> {
    Filter(results, IdNotIn(previous))
  }

  /**
   The new incidents keep the order of `results`, none has a known id, every result with an
   unknown id is among them, and, like `results`, they hold no two equal records.
   */
  lemma NewIncidentsSpec(results: seq<CrimeRecord>, previous: set<string>)
    requires NoDuplicates(results)
    ensures IsSubsequence(NewIncidents(results, previous), results)
    ensures forall rec :: rec in NewIncidents(results, previous) <==> rec in results && rec.id !in previous
    ensures NoDuplicates(NewIncidents(results, previous))
  {
    var kept := NewIncidents(results, previous);
    FilterIsSubsequence(results, IdNotIn(previous));
    FilterMembers(results, IdNotIn(previous));
    FilterCounts(results, IdNotIn(previous));
    forall rec | rec in results && rec.id !in previous
      ensures rec in kept
    {
      assert multiset(kept)[rec] > 0;
    }
    forall i, j | 0 <= i < j < |kept|
      ensures kept[i] != kept[j]
    {
      if kept[i] == kept[j] {
        CountTwo(kept, i, j);
        assert kept[i] in results;
        UniqueCountsOne(results, kept[i]);
        assert false;
      }
    }
  }

  /** An element at two positions is counted at least twice. */
  lemma CountTwo<T>(xs: seq<T>, i: nat, j: nat)
    requires i < j < |xs| && xs[i] == xs[j]
    ensures multiset(xs)[xs[i]] >= 2
  {
    assert xs == xs[..i] + [xs[i]] + xs[i + 1..j] + [xs[j]] + xs[j + 1..];
  }

  /** An element of a sequence without duplicates is counted once. */
  lemma {:induction false} UniqueCountsOne<T>(xs: seq<T>, x: T)
    requires NoDuplicates(xs) && x in xs
    ensures multiset(xs)[x] == 1
  {
    var n := |xs| - 1;
    assert xs == xs[..n] + [xs[n]];
    if xs[n] == x {
      assert x !in xs[..n];
    } else {
      UniqueCountsOne(xs[..n], x);
    }
  }

  /**
   The records the script appends, or the error that ends it: the crime log file must exist, its
   ids must be readable, the page must be fetched and every incident read.
   */
  function NewIncidentsOf(present: bool, file: seq<seq<string>>, page: Web.Fetch<seq<Incident>>, parseDate: string -> Option<string>): (r: Result<seq<CrimeRecord>>)
    ensures !present ==> r == Failure(FileNotFound(CSV_FILE))
    ensures present && LoadIds(file).Failure? ==> r == Failure(KeyError("id"))
    ensures present && LoadIds(file).Success? && page.RequestFailed? ==> r == Failure(RequestError)
    ensures r.Success? ==> && present && LoadIds(file).Success? && page.Fetched?
                           && Results(page.body, parseDate).Success?
  {
    if !present then Failure(FileNotFound(CSV_FILE))
    else
      match LoadIds(file)
      case Failure(e) => Failure(e)
      case Success(previous) =>
        match page
        case RequestFailed => Failure(RequestError)
        case Fetched(incidents) =>
          match Results(incidents, parseDate)
          case Failure(e) => Failure(e)
          case Success(results) => Success(NewIncidents(results, previous))
  }

  /** `csv.writer(csvfile).writerows(records)` on a file open for appending. */
  method WriteRows(csvFile: Csv.CsvFile, records: seq<CrimeRecord>)
    requires csvFile.Valid() && csvFile.present
    modifies csvFile
    ensures csvFile.Valid() && csvFile.present
    ensures csvFile.rows == old(csvFile.rows) + IncidentRows(records)
  {
    for i := 0 to |records|
      invariant csvFile.Valid() && csvFile.present
      invariant csvFile.rows == old(csvFile.rows) + IncidentRows(records[..i])
    {
      csvFile.WriteRow(ToList(records[i]));
      assert IncidentRows(records[..i + 1]) == IncidentRows(records[..i]) + [Csv.RenderRow(ToList(records[i]))];
    }
    assert records[..|records|] == records;
  }

  /** The whole script: read the known ids, scrape, and append the new incidents if there are any. */
  method Run(csvFile: Csv.CsvFile, page: Web.Fetch<seq<Incident>>, parseDate: string -> Option<string>) returns (outcome: Outcome)
    requires csvFile.Valid()
    modifies csvFile
    ensures csvFile.Valid()
    ensures var r := NewIncidentsOf(old(csvFile.present), old(csvFile.rows), page, parseDate);
      && outcome == (if r.Failure? then Fail(r.error) else Pass)
      && (r.Failure? || r.value == [] ==> unchanged(csvFile))
      && (r.Success? && r.value != [] ==> csvFile.present && csvFile.rows == old(csvFile.rows) + IncidentRows(r.value))
  {
    if !csvFile.present {
      return Fail(FileNotFound(CSV_FILE));
    }
    var ids := LoadIds(csvFile.rows);
    if ids.Failure? {
      return Fail(ids.error);
    }
    if page.RequestFailed? {
      return Fail(RequestError);
    }
    var results := ScrapeResults(page.body, parseDate);
    if results.Failure? {
      return Fail(results.error);
    }
    var newIncidents := NewIncidents(results.value, ids.value);
    if |newIncidents| > 0 {
      csvFile.Open(true);
      WriteRows(csvFile, newIncidents);
    }
    outcome := Pass;
  }

  /** The header reads the id from the first column (and from no later one). */
  predicate IdColumnFirst(header: seq<string>) {
    "id" in header && Csv.LastIndex(header, "id") == 0
  }

  /** A row written by `ToList` under such a header reads back its id. */
  lemma ToListReadsBackId(header: seq<string>, rec: CrimeRecord)
    requires IdColumnFirst(header)
    ensures Csv.Field(header, Csv.RenderRow(ToList(rec)), "id") == Some(rec.id)
  {
  }

  /** Appending incident rows forgets no id. */
  lemma KnownIdsStayKnown(rows: seq<seq<string>>, added: seq<CrimeRecord>, u: string)
    requires rows != [] && "id" in rows[0]
    requires LoadIds(rows).Success? && u in LoadIds(rows).value
    ensures LoadIds(rows + IncidentRows(added)).Success? && u in LoadIds(rows + IncidentRows(added)).value
  {
    Csv.ColumnKeepsCells(rows, IncidentRows(added), "id");
  }

  /** After appending incident rows, every appended id is known. */
  lemma AppendedIdsAreKnown(rows: seq<seq<string>>, added: seq<CrimeRecord>, k: nat)
    requires rows != [] && IdColumnFirst(rows[0]) && k < |added|
    ensures LoadIds(rows + IncidentRows(added)).Success? && added[k].id in LoadIds(rows + IncidentRows(added)).value
  {
    ToListReadsBackId(rows[0], added[k]);
    Csv.ColumnHasAppendedField(rows, IncidentRows(added), "id", k);
  }

  /**
   Running the script a second time on the same page appends nothing: after the first run appended
   its new incidents, every id of the results is known.
   */
  lemma SecondRunAddsNothing(rows: seq<seq<string>>, incidents: seq<Incident>, parseDate: string -> Option<string>)
    requires rows != [] && IdColumnFirst(rows[0])
    requires NewIncidentsOf(true, rows, Web.Fetched(incidents), parseDate).Success?
    ensures var after := rows + IncidentRows(NewIncidentsOf(true, rows, Web.Fetched(incidents), parseDate).value);
      NewIncidentsOf(true, after, Web.Fetched(incidents), parseDate) == Success([])
  {
    var keys := LoadIds(rows).value;
    var results := Results(incidents, parseDate).value;
    ResultsKnownAfterAppend(rows, results, keys);
    var after := rows + IncidentRows(NewIncidents(results, keys));
    FilterNone(results, IdNotIn(LoadIds(after).value));
  }

  /** After the new incidents are appended, the id of every result is among the known ids. */
  lemma ResultsKnownAfterAppend(rows: seq<seq<string>>, results: seq<CrimeRecord>, keys: set<string>)
    requires rows != [] && IdColumnFirst(rows[0])
    requires LoadIds(rows) == Success(keys)
    ensures var after := rows + IncidentRows(NewIncidents(results, keys));
      && LoadIds(after).Success?
      && forall rec :: rec in results ==> rec.id in LoadIds(after).value
  {
    var added := NewIncidents(results, keys);
    var after := rows + IncidentRows(added);
    assert LoadIds(after).Success? by {
      Csv.ColumnKeepsCells(rows, IncidentRows(added), "id");
    }
    var keys2 := LoadIds(after).value;
    forall rec | rec in results
      ensures rec.id in keys2
    {
      if rec.id in keys {
        KnownIdsStayKnown(rows, added, rec.id);
      } else {
        FilterCounts(results, IdNotIn(keys));
        assert multiset(added)[rec] > 0;
        var k :| 0 <= k < |added| && added[k] == rec;
        AppendedIdsAreKnown(rows, added, k);
      }
    }
  }
}
