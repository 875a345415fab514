/** src/cli/table.rs: the durations and rows of the report table, and its totals. The table
    layout itself (columns, borders, printing) is not modelled. */
module Table {
  import opened Text
  import opened Decimal
  import opened Calendar
  import opened Model
  import opened Sequences

  // ---------------------------------------------------------------------------------------
  // `duration_to_string`

  /** Integer division rounding toward zero, as `i64` division does. */
  function TruncDiv(a: int, b: int): (q: int)
    requires b > 0
    ensures a >= 0 ==> 0 <= a - q * b < b
    ensures a < 0 ==> -b < a - q * b <= 0
  {
    if a >= 0 then a / b else -((-a) / b)
  }

  /** `Duration::num_hours`, for a duration of whole seconds. */
  function NumHours(secs: int): int {
    TruncDiv(secs, 3600)
  }

  /** `Duration::num_minutes`, for a duration of whole seconds. */
  function NumMinutes(secs: int): int {
    TruncDiv(secs, 60)
  }

  /** The minutes printed after the hours. */
  function MinutePart(secs: int): int {
    NumMinutes(secs) - NumHours(secs) * 60
  }

  /** `{:02}` of an integer: at least two characters, zero-padded (a minus sign counts). */
  function Fmt02(n: int): (s: string)
    ensures forall i :: 0 <= i < |s| ==> IsDigit(s[i]) || s[i] == '-'
  {
    if 0 <= n < 10 then ['0', DigitChar(n)] else IntToString(n)
  }

  /** Below 100, `{:02}` gives exactly two digits. */
  lemma Fmt02Padded(n: int)
    requires 0 <= n < 100
    ensures Fmt02(n) == Padded(n, 2)
  {
    if n < 10 {
      OneDigitPadded(n);
    } else {
      TwoDigitsPadded(n);
    }
  }

  lemma OneDigitPadded(n: nat)
    requires n < 10
    ensures Padded(n, 2) == ['0', DigitChar(n)]
  {
    assert n / 10 == 0 && n % 10 == n;
    assert Padded(0, 1) == Padded(0, 0) + [DigitChar(0)];
  }

  lemma TwoDigitsPadded(n: nat)
    requires 10 <= n < 100
    ensures Padded(n, 2) == NatToString(n)
  {
    assert NatToString(n) == NatToString(n / 10) + [DigitChar(n % 10)];
    assert Padded(n, 2) == Padded(n / 10, 1) + [DigitChar(n % 10)];
    assert Padded(n / 10, 1) == Padded(0, 0) + [DigitChar(n / 10)];
  }

  /** `duration_to_string`: `"<hours>h <minutes>m"`. */
  function DurationToString(secs: int): (s: string)
    ensures '\n' !in s
  {
    IntToString(NumHours(secs)) + "h " + Fmt02(MinutePart(secs)) + "m"
  }

  /** The minute part completes the hours to the whole minutes; for a non-negative duration
      it lies in 0..59, for a negative one in -59..0. */
  lemma DurationParts(secs: int)
    ensures NumHours(secs) * 60 + MinutePart(secs) == NumMinutes(secs)
    ensures secs >= 0 ==> 0 <= MinutePart(secs) < 60
    ensures secs < 0 ==> -60 < MinutePart(secs) <= 0
  {
    if secs >= 0 {
      assert NumHours(secs) == NumMinutes(secs) / 60;
    } else {
      assert NumHours(secs) == -((-secs) / 60 / 60);
    }
  }

  /** For a non-negative duration the text is the hours, then the minutes of the last
      hour in two digits. */
  lemma DurationText(secs: nat)
    ensures DurationToString(secs) == NatToString(secs / 3600) + "h " + Padded(secs / 60 % 60, 2) + "m"
  {
    assert secs / 3600 == secs / 60 / 60;
    assert MinutePart(secs) == secs / 60 % 60;
    Fmt02Padded(secs / 60 % 60);
  }

  // ---------------------------------------------------------------------------------------
  // `fname`

  /** `fname`: the last piece of the path between slashes. */
  function Fname(path: string): string {
    var parts := Split(path, '/');
    parts[|parts| - 1]
  }

  /** The name has no slash; it is the whole path when the path has none, and otherwise
      what follows the last slash. */
  lemma FnameIsLastPiece(path: string)
    ensures '/' !in Fname(path)
    ensures '/' !in path ==> Fname(path) == path
    ensures '/' in path ==> exists dir :: path == dir + "/" + Fname(path)
  {
    LastPiece(path, '/');
  }

  // ---------------------------------------------------------------------------------------
  // `ranges` and the totals of `print`

  /** The row of one range: `"<start> -> <end>: <duration>"`, the endpoints in
      `NaiveDateTime`'s `Display` form (a space between date and time). */
  function Row(r: Range): (s: string)
    requires r.WellFormed()
    ensures '\n' !in s
  {
    DisplayOneLine(r.start);
    DisplayOneLine(r.end);
    FormatWith(r.start, ' ') + " -> " + FormatWith(r.end, ' ') + ": " + DurationToString(r.Duration())
  }

  lemma DisplayOneLine(t: DateTime)
    requires t.Printable()
    ensures '\n' !in FormatWith(t, ' ')
  {
    FormatWithChars(t, ' ');
    var s := FormatWith(t, ' ');
    assert forall i :: 0 <= i < |s| ==> s[i] != '\n';
  }

  /** `Row` as a function value, for the ranges the model produces (all well formed). */
  function RowOf(): Range -> string {
    (r: Range) => if r.WellFormed() then Row(r) else ""
  }

  /** The rows of the ranges, in their order. */
  function RowsOf(rs: seq<Range>): (rows: seq<string>) {
    Map(rs, RowOf())
  }

  /** The duration of a range as a function value, for the ranges the model produces (all
      well formed). */
  function DurationOf(): Range -> int {
    (r: Range) => if r.WellFormed() then r.Duration() else 0
  }

  /** The sum of the durations of the ranges. */
  function TotalDuration(rs: seq<Range>): int {
    SumOf(rs, DurationOf())
  }

  /** The total of ranges put together is the sum of their totals. */
  lemma TotalDurationAppend(a: seq<Range>, b: seq<Range>)
    ensures TotalDuration(a + b) == TotalDuration(a) + TotalDuration(b)
  {
    SumOfAppend(a, b, DurationOf());
  }

  /** The rows text of a document: its rows joined by newlines. */
  function RowsText(doc: DiaryDoc): string {
    Join(RowsOf(doc.WorklogRange()), "\n")
  }

  /** The accumulated duration of a document: the sum over its ranges. */
  function DocTotal(doc: DiaryDoc): int {
    TotalDuration(doc.WorklogRange())
  }

  /** `ranges`: one row per range, joined by newlines, and the sum of the durations. */
  method Ranges(doc: DiaryDoc) returns (rows: string, total: int)
    ensures rows == RowsText(doc)
    ensures total == DocTotal(doc)
  {
    var lines;
    lines, total := RowsAndTotal(doc.WorklogRange());
    rows := Join(lines, "\n");
  }

  /** The loop of `ranges`: the row of each range, and the sum of the durations. */
  method RowsAndTotal(rs: seq<Range>) returns (lines: seq<string>, total: int)
    requires forall i :: 0 <= i < |rs| ==> rs[i].WellFormed()
    ensures lines == RowsOf(rs)
    ensures total == TotalDuration(rs)
  {
    lines := [];
    total := 0;
    for i := 0 to |rs|
      invariant lines == RowsOf(rs[..i])
      invariant total == TotalDuration(rs[..i])
    {
      RowsSnoc(rs, i);
      TotalSnoc(rs, i);
      var diff := rs[i].Duration();
      total := total + diff;
      lines := lines + [Row(rs[i])];
    }
    assert rs[..|rs|] == rs;
  }

  lemma RowsSnoc(rs: seq<Range>, i: nat)
    requires i < |rs| && rs[i].WellFormed()
    ensures RowsOf(rs[..i + 1]) == RowsOf(rs[..i]) + [Row(rs[i])]
  {
    MapSnoc(rs, RowOf(), i);
  }

  lemma TotalSnoc(rs: seq<Range>, i: nat)
    requires i < |rs| && rs[i].WellFormed()
    ensures TotalDuration(rs[..i + 1]) == TotalDuration(rs[..i]) + rs[i].Duration()
  {
    SumOfSnoc(rs, DurationOf(), i);
  }

  /** Splitting the joined rows at the newlines gives the rows back: the text has exactly one
      line per range, and no text at all when there is no range. */
  lemma RowsTextLines(doc: DiaryDoc)
    ensures doc.WorklogRange() == [] ==> RowsText(doc) == ""
    ensures doc.WorklogRange() != [] ==> Split(RowsText(doc), '\n') == RowsOf(doc.WorklogRange())
  {
    var rows := RowsOf(doc.WorklogRange());
    if rows != [] {
      SplitJoin(rows, '\n');
    }
  }

  /** Pieces free of the separator come back from `split` after `join`. */
  lemma {:induction false} SplitJoin(parts: seq<string>, c: char)
    requires parts != []
    requires forall i :: 0 <= i < |parts| ==> c !in parts[i]
    ensures Split(Join(parts, [c]), c) == parts
  {
    if |parts| == 1 {
      SplitWithoutSeparator(parts[0], c);
    } else {
      SplitJoin(parts[1..], c);
      SplitAtFirst(parts[0], c, Join(parts[1..], [c]));
      assert parts == [parts[0]] + parts[1..];
    }
  }

  /** The total row: two empty cells and the duration. */
  function FmtTotal(secs: int): seq<string> {
    ["", "", DurationToString(secs)]
  }

  /** The grand total of a list of documents: the sum of their accumulated durations. */
  function GrandTotal(docs: seq<DiaryDoc>): int {
    SumOf(docs, DocTotalOf())
  }

  function DocTotalOf(): DiaryDoc -> int {
    (d: DiaryDoc) => DocTotal(d)
  }

  /** The grand total over all documents is the total of all their ranges put together. */
  lemma {:induction false} GrandTotalIsTotal(docs: seq<DiaryDoc>)
    ensures GrandTotal(docs) == TotalDuration(AllRanges(docs))
  {
    if docs != [] {
      GrandTotalIsTotal(docs[..|docs| - 1]);
      TotalDurationAppend(AllRanges(docs[..|docs| - 1]), docs[|docs| - 1].WorklogRange());
    }
  }

  /** The ranges of all the documents, document after document. */
  function AllRanges(docs: seq<DiaryDoc>): (rs: seq<Range>)
    ensures forall i :: 0 <= i < |rs| ==> rs[i].WellFormed()
  {
    if docs == [] then [] else AllRanges(docs[..|docs| - 1]) + docs[|docs| - 1].WorklogRange()
  }

  /** The records of the table after `print`'s loop: per document its name and rows, then
      its total; the grand total last. */
  function Records(docs: seq<DiaryDoc>): seq<seq<string>> {
    FlatMap(docs, DocRecordsOf())
  }

  /** The two records of one document: its name and rows, then its total. */
  function DocRecords(d: DiaryDoc): seq<seq<string>> {
    [[Fname(d.path), RowsText(d), ""], FmtTotal(DocTotal(d))]
  }

  function DocRecordsOf(): DiaryDoc -> seq<seq<string>> {
    (d: DiaryDoc) => DocRecords(d)
  }

  /** The loop of `print`: the records of the table and the grand total. */
  method Print(results: seq<DiaryDoc>) returns (records: seq<seq<string>>, total: int)
    ensures total == GrandTotal(results)
    ensures records == Records(results) + [FmtTotal(GrandTotal(results))]
  {
    records := [];
    total := 0;
    for i := 0 to |results|
      invariant total == GrandTotal(results[..i])
      invariant records == Records(results[..i])
    {
      var x := results[i];
      var name := Fname(x.path);
      var rows, partial := Ranges(x);
      records := records + [[name, rows, ""], FmtTotal(partial)];
      total := total + partial;
      SumOfSnoc(results, DocTotalOf(), i);
      FlatMapSnoc(results, DocRecordsOf(), i);
    }
    assert results[..|results|] == results;
    records := records + [FmtTotal(total)];
  }
}
