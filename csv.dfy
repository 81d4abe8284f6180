/**
 A CSV file as the scrapers use it through Python's `csv` module: a file that may not exist yet,
 holding a sequence of rows of cell strings. Quoting and escaping are not modelled: a row written
 by `csv.writer` is read back by `csv.reader` as the same list of strings.
 */
module Csv {
  import opened Wrappers
  import opened Seqs
  import Text

  /** A Python value handed to `writerow`. */
  datatype Value = Str(s: string) | Int(i: int) | Null

  /** What `csv.writer` puts in a cell: `None` becomes the empty string, an int its decimal digits. */
  function Render(v: Value): string {
    match v
    case Str(s) => s
    case Int(i) => Text.Decimal(i)
    case Null => ""
  }

  function RenderRow(vs: seq<Value>): (r: seq<string>)
    ensures |r| == |vs|
    ensures forall k :: 0 <= k < |vs| ==> r[k] == Render(vs[k])
  {
    seq(|vs|, k requires 0 <= k < |vs| => Render(vs[k]))
  }

  /** A row of strings as `writerow` receives it. */
  function Strs(ss: seq<string>): (vs: seq<Value>)
    ensures RenderRow(vs) == ss
  {
    seq(|ss|, k requires 0 <= k < |ss| => Str(ss[k]))
  }

  class CsvFile {
    var present: bool
    var rows: seq<seq<string>>

    /** A file that does not exist has no rows. */
    ghost predicate Valid()
      reads this
    {
      !present ==> rows == []
    }

    constructor (present: bool, rows: seq<seq<string>>)
      requires !present ==> rows == []
      ensures Valid() && this.present == present && this.rows == rows
    {
      this.present := present;
      this.rows := rows;
    }

    /** `Path.write_text(line + "\n")`: the file now holds that one row, whatever it held before. */
    method WriteText(line: seq<string>)
      modifies this
      ensures Valid() && present && rows == [line]
    {
      present := true;
      rows := [line];
    }

    /** `open(path, 'a')` keeps the rows (creating an empty file if needed); `open(path, 'w')` truncates. */
    method Open(append: bool)
      requires Valid()
      modifies this
      ensures Valid() && present && rows == if append then old(rows) else []
    {
      present := true;
      if !append {
        rows := [];
      }
    }

    /** `csv.writer(f).writerow(values)` on an open file. */
    method WriteRow(vs: seq<Value>)
      requires present
      modifies this
      ensures Valid() && present && rows == old(rows) + [RenderRow(vs)]
    {
      rows := rows + [RenderRow(vs)];
    }
  }

  /** The rows `writerow(toList(x))` writes for each `x` of `xs`, in order. */
  function Rows<T>(xs: seq<T>, toList: T -> seq<Value>): (rows: seq<seq<string>>)
    ensures |rows| == |xs|
    ensures forall k :: 0 <= k < |xs| ==> rows[k] == RenderRow(toList(xs[k]))
  {
    seq(|xs|, k requires 0 <= k < |xs| => RenderRow(toList(xs[k])))
  }

  /** A line `csv.DictReader` yields a row for: it skips blank lines. */
  predicate NonBlank(row: seq<string>) {
    row != []
  }

  /** The rows `csv.DictReader` yields: every row after the first (the header), blank lines skipped. */
  function DataRows(file: seq<seq<string>>): seq<seq<string>> {
    if file == [] then [] else Filter(file[1..], NonBlank)
  }

  /** The index DictReader keeps for a column name: when a name repeats, the last column wins. */
  function LastIndex(header: seq<string>, name: string): (k: nat)
    requires name in header
    ensures k < |header| && header[k] == name
    ensures forall j :: k < j < |header| ==> header[j] != name
  {
    if header[|header| - 1] == name then |header| - 1
    else LastIndex(header[..|header| - 1], name)
  }

  /** `row[name]` for a DictReader row: None (the restval) when the row is too short for the column. */
  function Field(header: seq<string>, row: seq<string>, name: string): Option<string>
    requires name in header
  {
    var k := LastIndex(header, name);
    if k < |row| then Some(row[k]) else None
  }

  function Fields(header: seq<string>, rows: seq<seq<string>>, name: string): (r: seq<Option<string>>)
    requires name in header
    ensures |r| == |rows|
    ensures forall k :: 0 <= k < |rows| ==> r[k] == Field(header, rows[k], name)
  {
    seq(|rows|, k requires 0 <= k < |rows| => Field(header, rows[k], name))
  }

  /**
   `[row[name] for row in csv.DictReader(f)]`: the KeyError is raised by the first data row when
   the header has no such column, so a file without data rows never raises.
   */
  function Column(file: seq<seq<string>>, name: string): (r: Result<seq<Option<string>>>)
    ensures r.Failure? <==> DataRows(file) != [] && name !in file[0]
    ensures r.Failure? ==> r.error == KeyError(name)
    ensures r.Success? ==> |r.value| == |DataRows(file)|
  {
    var data := DataRows(file);
    if data == [] then Success([])
    else if name !in file[0] then Failure(KeyError(name))
    else Success(Fields(file[0], data, name))
  }

  /**
   `{row[name] for row in csv.DictReader(f)}` with the rows too short for the column left out:
   the key set a scraper loads to recognise what it has already written.
   */
  function Keys(file: seq<seq<string>>, name: string): (r: Result<set<string>>)
    ensures r.Failure? <==> DataRows(file) != [] && name !in file[0]
    ensures r.Failure? ==> r.error == KeyError(name)
    ensures r.Success? ==> forall u :: u in r.value <==> Some(u) in Column(file, name).value
  {
    match Column(file, name)
    case Failure(e) => Failure(e)
    case Success(cells) => Success(set c | c in cells && c.Some? :: c.value)
  }

  /**
   Reading a column after appending non-blank rows under a header that has the column: the
   values read before, then one value per appended row, in order.
   */
  lemma ColumnAfterAppend(file: seq<seq<string>>, extra: seq<seq<string>>, name: string)
    requires file != [] && name in file[0]
    requires forall row :: row in extra ==> NonBlank(row)
    ensures Column(file + extra, name).Success?
    ensures Column(file + extra, name).value == Column(file, name).value + Fields(file[0], extra, name)
  {
    assert (file + extra)[1..] == file[1..] + extra;
    assert (file + extra)[0] == file[0];
    FilterAppend(file[1..], extra, NonBlank);
    FilterAll(extra, NonBlank);
    assert DataRows(file + extra) == DataRows(file) + extra;
    FieldsAppend(file[0], DataRows(file), extra, name);
  }

  lemma FieldsAppend(header: seq<string>, a: seq<seq<string>>, b: seq<seq<string>>, name: string)
    requires name in header
    ensures Fields(header, a + b, name) == Fields(header, a, name) + Fields(header, b, name)
  {
  }

  /** Appending non-blank rows under a header that has the column keeps every value the column had. */
  lemma ColumnKeepsCells(file: seq<seq<string>>, extra: seq<seq<string>>, name: string)
    requires file != [] && name in file[0]
    requires forall row :: row in extra ==> NonBlank(row)
    ensures Column(file + extra, name).Success?
    ensures forall c :: c in Column(file, name).value ==> c in Column(file + extra, name).value
  {
    ColumnAfterAppend(file, extra, name);
  }

  /** Appending non-blank rows under a header that has the column adds each row's value to it. */
  lemma ColumnHasAppendedField(file: seq<seq<string>>, extra: seq<seq<string>>, name: string, k: nat)
    requires file != [] && name in file[0]
    requires forall row :: row in extra ==> NonBlank(row)
    requires k < |extra|
    ensures Column(file + extra, name).Success?
    ensures Field(file[0], extra[k], name) in Column(file + extra, name).value
  {
    ColumnAfterAppend(file, extra, name);
    var cells := Column(file + extra, name).value;
    assert cells[|Column(file, name).value| + k] == Field(file[0], extra[k], name);
  }
}
