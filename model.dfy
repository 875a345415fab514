/** src/data/model.rs: a diary document, its raw worklog entries, the ranges derived from
    them and the `start`/`stop` updates of the worklog. */
module Model {
  import opened Wrappers
  import opened Text
  import opened Decimal
  import opened Calendar
  import opened Sequences

  /** The document's front matter. */
  datatype Metadata = Metadata(
    author: Option<string>,
    date: Option<string>,
    tags: seq<string>,
    estimate: Option<string>,
    worklog: seq<string>)

  /** `Range<NaiveDateTime>` parsed from a closed entry. `start <= end` is not enforced. */
  datatype Range = Range(start: DateTime, end: DateTime) {
    predicate WellFormed() {
      start.Printable() && end.Printable()
    }

    /** `end - start` in seconds. */
    function Duration(): int
      requires WellFormed()
    {
      Timestamp(end) - Timestamp(start)
    }
  }

  /** Why `worklog_to_date_range` refused an entry: the "Invalid input string" error of an
      incomplete entry, or chrono's parse error. */
  datatype RangeError = Incomplete | BadTimestamp

  /** `worklog_entry`: the pieces of a raw entry between commas, each trimmed. */
  function WorklogEntry(raw: string): (parts: seq<string>)
    ensures |parts| == |Split(raw, ',')| >= 1
  {
    var pieces := Split(raw, ',');
    seq(|pieces|, i requires 0 <= i < |pieces| => Trim(pieces[i]))
  }

  /** `is_worklog_entry_complete`: there is a second piece and it is not empty. */
  predicate IsEntryComplete(entry: seq<string>) {
    |entry| > 1 && entry[1] != ""
  }

  /** `worklog_to_date_range`: an incomplete entry is an error; otherwise the first two
      pieces must both parse, and any later pieces are ignored. */
  function WorklogToDateRange(raw: string): (r: Result<Range, RangeError>)
    ensures r == Err(Incomplete) <==> !IsEntryComplete(WorklogEntry(raw))
    ensures r.Ok? ==> r.value.WellFormed()
  {
    var entry := WorklogEntry(raw);
    if !IsEntryComplete(entry) then Err(Incomplete)
    else
      match ParseTs(entry[0])
      case None => Err(BadTimestamp)
      case Some(st) =>
        match ParseTs(entry[1])
        case None => Err(BadTimestamp)
        case Some(end) => Ok(Range(st, end))
  }

  /** A range read from an entry formats back to the entry's first two pieces. */
  lemma RangeOfEntry(raw: string)
    requires WorklogToDateRange(raw).Ok?
    ensures var r := WorklogToDateRange(raw).value;
      FormatTs(r.start) == WorklogEntry(raw)[0] && FormatTs(r.end) == WorklogEntry(raw)[1]
  {
  }

  /** The ranges of a worklog: `filter_map` of `worklog_to_date_range(..).ok()`. */
  function RangesOf(worklog: seq<string>): (rs: seq<Range>)
    ensures |rs| <= |worklog|
    ensures forall i :: 0 <= i < |rs| ==> rs[i].WellFormed()
  {
    if worklog == [] then []
    else
      var rest := RangesOf(worklog[1..]);
      var parsed := WorklogToDateRange(worklog[0]);
      if parsed.Ok? then
        var rs := [parsed.value] + rest;
        assert forall i :: 0 < i < |rs| ==> rs[i] == rest[i - 1];
        rs
      else rest
  }

  /** A range belongs to the ranges of a worklog exactly when some entry parses to it. */
  lemma {:induction false} RangesOfMembers(worklog: seq<string>)
    ensures forall r :: r in RangesOf(worklog) <==> exists e :: e in worklog && WorklogToDateRange(e) == Ok(r)
  {
    if worklog != [] {
      RangesOfMembers(worklog[1..]);
      assert forall e :: e in worklog <==> e == worklog[0] || e in worklog[1..];
    }
  }

  /** The ranges of a worklog are the ranges of its parts, in order. */
  lemma {:induction false} RangesOfAppend(a: seq<string>, b: seq<string>)
    ensures RangesOf(a + b) == RangesOf(a) + RangesOf(b)
  {
    if a == [] {
      assert a + b == b;
    } else {
      assert (a + b)[1..] == a[1..] + b;
      RangesOfAppend(a[1..], b);
    }
  }

  /** Some entry of the worklog is not complete. */
  predicate LogActive(worklog: seq<string>) {
    exists i :: 0 <= i < |worklog| && !IsEntryComplete(WorklogEntry(worklog[i]))
  }

  /** The entry `start` appends: `"<now>,"`. */
  function StartEntry(now: DateTime): string
    requires now.Printable()
  {
    FormatTs(now) + ","
  }

  /** The worklog after `start(now)`. */
  function Started(worklog: seq<string>, now: DateTime): seq<string>
    requires now.Printable()
  {
    worklog + [StartEntry(now)]
  }

  /** The worklog after `stop(now)`: `now` appended to the text of the last entry. */
  function Stopped(worklog: seq<string>, now: DateTime): seq<string>
    requires worklog != [] && now.Printable()
  {
    worklog[..|worklog| - 1] + [worklog[|worklog| - 1] + FormatTs(now)]
  }

  datatype DiaryDoc = DiaryDoc(metadata: Metadata, path: string) {
    /** `is_active`. */
    predicate IsActive() {
      LogActive(metadata.worklog)
    }

    /** `worklog_range`. */
    function WorklogRange(): seq<Range> {
      RangesOf(metadata.worklog)
    }

    /** `has_work_after`: some range ends strictly after `t`. */
    predicate HasWorkAfter(t: DateTime)
      requires t.Valid()
    {
      var rs := WorklogRange();
      exists i :: 0 <= i < |rs| && Timestamp(rs[i].end) > Timestamp(t)
    }

    /** `has_work_before`: some range starts strictly before `t`. */
    predicate HasWorkBefore(t: DateTime)
      requires t.Valid()
    {
      var rs := WorklogRange();
      exists i :: 0 <= i < |rs| && Timestamp(rs[i].start) < Timestamp(t)
    }
  }

  /** A formatted timestamp has no comma and no whitespace, so splitting and trimming
      leave it whole. */
  lemma FormatTsIsOnePiece(t: DateTime)
    requires t.Printable()
    ensures ',' !in FormatTs(t)
    ensures !IsSpace(FormatTs(t)[0]) && !IsSpace(FormatTs(t)[18])
    ensures Trim(FormatTs(t)) == FormatTs(t)
  {
    var s := FormatTs(t);
    FormatWithChars(t, 'T');
    assert ',' !in s;
    assert !IsSpace(s[0]) && !IsSpace(s[18]);
    TrimUnpadded(s);
  }

  /** The entry that `start` pushes is open: it makes `worklog_to_date_range` fail. */
  lemma StartEntryIsOpen(now: DateTime)
    requires now.Printable()
    ensures WorklogEntry(StartEntry(now)) == [FormatTs(now), ""]
    ensures WorklogToDateRange(StartEntry(now)) == Err(Incomplete)
  {
    var f := FormatTs(now);
    FormatTsIsOnePiece(now);
    TwoPieces(f, "");
    assert StartEntry(now) == f + "," + "";
    assert Trim("") == "";
  }

  /** A closed entry `"<s>,<n>"` gives the range `(s, n)`. */
  lemma ClosedEntryRange(s: DateTime, n: DateTime)
    requires s.Printable() && n.Printable()
    ensures WorklogToDateRange(FormatTs(s) + "," + FormatTs(n)) == Ok(Range(s, n))
  {
    var fs, fn := FormatTs(s), FormatTs(n);
    FormatTsIsOnePiece(s);
    FormatTsIsOnePiece(n);
    SplitWithoutSeparator(fn, ',');
    SplitAtFirst(fs, ',', fn);
    assert fs + "," + fn == fs + [','] + fn;
    var raw := fs + "," + fn;
    assert Split(raw, ',') == [fs, fn];
    var entry := WorklogEntry(raw);
    assert entry[0] == Trim(fs) == fs;
    assert entry[1] == Trim(fn) == fn;
    assert IsEntryComplete(entry);
    ParseFormatTs(s);
    ParseFormatTs(n);
    assert ParseTs(entry[0]) == Some(s) && ParseTs(entry[1]) == Some(n);
    assert WorklogToDateRange(raw) == Ok(Range(s, n));
  }

  /** The first two pieces of `a,b,rest` are `a` and `b`, trimmed. */
  lemma FirstTwoPieces(a: string, b: string, rest: string)
    requires ',' !in a && ',' !in b
    ensures |WorklogEntry(a + "," + b + "," + rest)| >= 2
    ensures WorklogEntry(a + "," + b + "," + rest)[0] == Trim(a)
    ensures WorklogEntry(a + "," + b + "," + rest)[1] == Trim(b)
  {
    var raw := a + "," + b + "," + rest;
    SplitAtFirst(b, ',', rest);
    assert b + "," + rest == b + [','] + rest;
    var tail := Split(b + "," + rest, ',');
    assert tail == [b] + Split(rest, ',');
    SplitAtFirst(a, ',', b + "," + rest);
    assert raw == a + [','] + (b + "," + rest);
    var pieces := Split(raw, ',');
    assert pieces == [a] + tail;
    assert pieces[0] == a && pieces[1] == b;
    var e := WorklogEntry(raw);
    assert e[0] == Trim(pieces[0]);
    assert e[1] == Trim(pieces[1]);
  }

  /** An entry whose first two pieces are formatted timestamps gives their range. */
  lemma RangeFromPieces(raw: string, s: DateTime, n: DateTime)
    requires s.Printable() && n.Printable()
    requires |WorklogEntry(raw)| >= 2
    requires WorklogEntry(raw)[0] == FormatTs(s) && WorklogEntry(raw)[1] == FormatTs(n)
    ensures WorklogToDateRange(raw) == Ok(Range(s, n))
  {
    ParseFormatTs(s);
    ParseFormatTs(n);
  }

  /** The pieces of `a,b`, trimmed. */
  lemma TwoPieces(a: string, b: string)
    requires ',' !in a && ',' !in b
    ensures WorklogEntry(a + "," + b) == [Trim(a), Trim(b)]
  {
    SplitWithoutSeparator(b, ',');
    SplitAtFirst(a, ',', b);
    assert a + "," + b == a + [','] + b;
    assert Split(a + "," + b, ',') == [a, b];
  }

  /** Pieces after the second are ignored: `a,b,rest` gives the same result as `a,b`, the
      same range or the same error, whatever `rest` is. */
  lemma LaterPiecesIgnored(a: string, b: string, rest: string)
    requires ',' !in a && ',' !in b
    ensures WorklogToDateRange(a + "," + b + "," + rest) == WorklogToDateRange(a + "," + b)
  {
    FirstTwoPieces(a, b, rest);
    TwoPieces(a, b);
    SameFirstTwo(a + "," + b + "," + rest, a + "," + b);
  }

  /** Only the first two pieces of an entry decide its result. */
  lemma SameFirstTwo(x: string, y: string)
    requires |WorklogEntry(x)| >= 2 && |WorklogEntry(y)| >= 2
    requires WorklogEntry(x)[0] == WorklogEntry(y)[0] && WorklogEntry(x)[1] == WorklogEntry(y)[1]
    ensures WorklogToDateRange(x) == WorklogToDateRange(y)
  {
  }

  /** Blanks around the first two pieces are trimmed: `a,b,rest` gives the range `(s, n)`
      when `a` and `b` trim to their formatted timestamps. */
  lemma TrimmedPiecesRange(a: string, b: string, rest: string, s: DateTime, n: DateTime)
    requires s.Printable() && n.Printable()
    requires ',' !in a && ',' !in b
    requires Trim(a) == FormatTs(s) && Trim(b) == FormatTs(n)
    ensures WorklogToDateRange(a + "," + b + "," + rest) == Ok(Range(s, n))
  {
    FirstTwoPieces(a, b, rest);
    RangeFromPieces(a + "," + b + "," + rest, s, n);
  }

  /** `is_active` holds exactly when some entry is open; an empty worklog is inactive. */
  lemma ActiveIffOpenEntry(doc: DiaryDoc)
    ensures doc.IsActive() <==> exists e :: e in doc.metadata.worklog && WorklogToDateRange(e) == Err(Incomplete)
    ensures doc.metadata.worklog == [] ==> !doc.IsActive()
  {
    var w := doc.metadata.worklog;
    if doc.IsActive() {
      var i :| 0 <= i < |w| && !IsEntryComplete(WorklogEntry(w[i]));
      assert w[i] in w;
    }
  }

  /** An active document has an entry that yields no range. */
  lemma {:induction false} ActiveDropsAnEntry(worklog: seq<string>)
    requires LogActive(worklog)
    ensures |RangesOf(worklog)| < |worklog|
  {
    if !IsEntryComplete(WorklogEntry(worklog[0])) {
    } else {
      var i :| 0 <= i < |worklog| && !IsEntryComplete(WorklogEntry(worklog[i]));
      assert worklog[1..][i - 1] == worklog[i];
      ActiveDropsAnEntry(worklog[1..]);
    }
  }

  /** The converse does not hold: a closed entry whose first piece is no timestamp (`"a,b"`,
      say) yields no range, and the document is still not active. */
  lemma UnparsedEntryNotActive(a: string, b: string)
    requires ',' !in a && ',' !in b && b != []
    requires a == [] || (!IsSpace(a[0]) && !IsSpace(a[|a| - 1]))
    requires !IsSpace(b[0]) && !IsSpace(b[|b| - 1])
    requires ParseTs(a) == None
    ensures !LogActive([a + "," + b]) && RangesOf([a + "," + b]) == []
  {
    var raw := a + "," + b;
    PiecesOfClosedEntry(a, b);
    assert IsEntryComplete(WorklogEntry(raw));
    assert WorklogToDateRange(raw) == Err(BadTimestamp);
    SingleEntry(raw);
  }

  /** A worklog of one entry is active exactly when the entry is incomplete, and has its
      range, if any. */
  lemma SingleEntry(raw: string)
    ensures LogActive([raw]) <==> !IsEntryComplete(WorklogEntry(raw))
    ensures RangesOf([raw]) == if WorklogToDateRange(raw).Ok? then [WorklogToDateRange(raw).value] else []
  {
    var log := [raw];
    assert log[0] == raw;
    assert log[1..] == [];
    assert RangesOf(log[1..]) == [];
  }

  /** The pieces of `"<a>,<b>"` are `a` and `b`, when neither holds a comma or outer space. */
  lemma PiecesOfClosedEntry(a: string, b: string)
    requires ',' !in a && ',' !in b
    requires a == [] || (!IsSpace(a[0]) && !IsSpace(a[|a| - 1]))
    requires b == [] || (!IsSpace(b[0]) && !IsSpace(b[|b| - 1]))
    ensures WorklogEntry(a + "," + b) == [a, b]
  {
    var raw := a + [','] + b;
    assert a + "," + b == raw;
    SplitWithoutSeparator(b, ',');
    SplitAtFirst(a, ',', b);
    assert Split(raw, ',') == [a, b];
    TrimUnpadded(a);
    TrimUnpadded(b);
    var e := WorklogEntry(raw);
    assert |e| == 2;
    assert e[0] == Trim(a) == a;
    assert e[1] == Trim(b) == b;
    assert e == [a, b];
  }

  /** `has_work_after(t)` holds exactly when some raw entry parses to a range ending after `t`. */
  lemma HasWorkAfterIffEntry(doc: DiaryDoc, t: DateTime)
    requires t.Valid()
    ensures doc.HasWorkAfter(t) <==>
      exists e, r :: e in doc.metadata.worklog && WorklogToDateRange(e) == Ok(r) && Timestamp(r.end) > Timestamp(t)
    ensures doc.WorklogRange() == [] ==> !doc.HasWorkAfter(t)
  {
    var w, rs := doc.metadata.worklog, doc.WorklogRange();
    RangesOfMembers(w);
    if doc.HasWorkAfter(t) {
      var i :| 0 <= i < |rs| && Timestamp(rs[i].end) > Timestamp(t);
      var r := rs[i];
      assert r in rs;
      var e :| e in w && WorklogToDateRange(e) == Ok(r);
    } else {
      forall e, r | e in w && WorklogToDateRange(e) == Ok(r)
        ensures Timestamp(r.end) <= Timestamp(t)
      {
        assert r in rs;
        var i :| 0 <= i < |rs| && rs[i] == r;
      }
    }
  }

  /** `has_work_before(t)` holds exactly when some raw entry parses to a range starting before `t`. */
  lemma HasWorkBeforeIffEntry(doc: DiaryDoc, t: DateTime)
    requires t.Valid()
    ensures doc.HasWorkBefore(t) <==>
      exists e, r :: e in doc.metadata.worklog && WorklogToDateRange(e) == Ok(r) && Timestamp(r.start) < Timestamp(t)
    ensures doc.WorklogRange() == [] ==> !doc.HasWorkBefore(t)
  {
    var w, rs := doc.metadata.worklog, doc.WorklogRange();
    RangesOfMembers(w);
    if doc.HasWorkBefore(t) {
      var i :| 0 <= i < |rs| && Timestamp(rs[i].start) < Timestamp(t);
      var r := rs[i];
      assert r in rs;
      var e :| e in w && WorklogToDateRange(e) == Ok(r);
    } else {
      forall e, r | e in w && WorklogToDateRange(e) == Ok(r)
        ensures Timestamp(r.start) >= Timestamp(t)
      {
        assert r in rs;
        var i :| 0 <= i < |rs| && rs[i] == r;
      }
    }
  }

  /** After `start` the worklog is active, whatever it was before. */
  lemma StartedIsActive(worklog: seq<string>, now: DateTime)
    requires now.Printable()
    ensures LogActive(Started(worklog, now))
    ensures RangesOf(Started(worklog, now)) == RangesOf(worklog)
  {
    StartEntryIsOpen(now);
    var w := Started(worklog, now);
    assert w[|worklog|] == StartEntry(now);
    RangesOfAppend(worklog, [StartEntry(now)]);
    assert RangesOf([StartEntry(now)]) == [];
  }

  /** Appending a complete entry keeps a worklog inactive. */
  lemma AppendCompleteKeepsInactive(worklog: seq<string>, e: string)
    requires !LogActive(worklog) && IsEntryComplete(WorklogEntry(e))
    ensures !LogActive(worklog + [e])
  {
  }

  /** `start(s)` then `stop(n)` on an inactive worklog closes a session: the document is
      inactive again and exactly the range `(s, n)` is added at the end. */
  lemma StartThenStop(worklog: seq<string>, s: DateTime, n: DateTime)
    requires !LogActive(worklog) && s.Printable() && n.Printable()
    ensures Stopped(Started(worklog, s), n) == worklog + [FormatTs(s) + "," + FormatTs(n)]
    ensures !LogActive(Stopped(Started(worklog, s), n))
    ensures RangesOf(Stopped(Started(worklog, s), n)) == RangesOf(worklog) + [Range(s, n)]
  {
    var closed := FormatTs(s) + "," + FormatTs(n);
    assert StartEntry(s) + FormatTs(n) == closed;
    assert Started(worklog, s)[..|worklog|] == worklog;
    assert Stopped(Started(worklog, s), n) == worklog + [closed];
    ClosedEntryRange(s, n);
    AppendCompleteKeepsInactive(worklog, closed);
    RangesOfAppend(worklog, [closed]);
    assert RangesOf([closed]) == [Range(s, n)];
  }

  /** A document held in a mutable binding (`mut doc`), whose `start` and `stop` update the
      worklog in place. */
  class MutDiaryDoc {
    var metadata: Metadata
    var path: string

    function Value(): DiaryDoc
      reads this
    {
      DiaryDoc(metadata, path)
    }

    constructor (doc: DiaryDoc)
      ensures Value() == doc
    {
      metadata := doc.metadata;
      path := doc.path;
    }

    /** `start`: pushes `"<now>,"`; it does not look at whether the document is active. */
    method Start(now: DateTime)
      requires now.Printable()
      modifies this
      ensures metadata == old(metadata).(worklog := Started(old(metadata.worklog), now))
      ensures path == old(path)
      ensures Value().IsActive()
      ensures Value().WorklogRange() == old(Value().WorklogRange())
    {
      var newEntry := FormatTs(now) + ",";
      metadata := metadata.(worklog := metadata.worklog + [newEntry]);
      StartedIsActive(old(metadata.worklog), now);
    }

    /** `stop`: pops the last entry and pushes it back with `now` appended. The `unwrap` of
        `pop` panics on an empty worklog, hence the precondition. */
    method Stop(now: DateTime)
      requires metadata.worklog != [] && now.Printable()
      modifies this
      ensures metadata == old(metadata).(worklog := Stopped(old(metadata.worklog), now))
      ensures path == old(path)
      ensures |metadata.worklog| == |old(metadata.worklog)|
      ensures metadata.worklog[..|metadata.worklog| - 1] == old(metadata.worklog)[..|metadata.worklog| - 1]
    {
      var worklog := metadata.worklog;
      var lastEntry := worklog[|worklog| - 1];
      worklog := worklog[..|worklog| - 1];
      lastEntry := lastEntry + FormatTs(now);
      metadata := metadata.(worklog := worklog + [lastEntry]);
    }
  }
}
