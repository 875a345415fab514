/** src/data/query.rs: the filters over the loaded diary and the date-window query. The
    list that `load_diary()` returns is an input sequence here. */
module Query {
  import opened Wrappers
  import opened Text
  import opened Calendar
  import opened Sequences
  import opened Sorting
  import opened Model

  // ---------------------------------------------------------------------------------------
  // Plain filters: `active`, `by_tags`, `by_path` (`all` is the loaded diary itself)

  /** `all`: the diary as loaded. */
  function All(diary: seq<DiaryDoc>): seq<DiaryDoc> {
    diary
  }

  function ActiveTest(): DiaryDoc -> bool {
    (x: DiaryDoc) => x.IsActive()
  }

  /** `active`: the active documents, in their order. */
  function Active(diary: seq<DiaryDoc>): seq<DiaryDoc> {
    Retain(diary, ActiveTest())
  }

  /** `active` keeps, in their order, exactly the active documents, each as often as the
      diary holds it. */
  lemma ActiveFilters(diary: seq<DiaryDoc>)
    ensures IsSubsequence(Active(diary), diary)
    ensures forall d :: d in Active(diary) <==> d in diary && d.IsActive()
    ensures forall d :: multiset(Active(diary))[d] == if d.IsActive() then multiset(diary)[d] else 0
  {
    RetainIsFilter(diary, ActiveTest());
  }

  /** The test of `by_tags`: the document's tags, retained to the requested ones, are not
      all gone; that is, the two lists share a tag. */
  function HasRequestedTag(doc: DiaryDoc, tags: seq<string>): (b: bool)
    ensures b <==> exists t :: t in doc.metadata.tags && t in tags
  {
    var kept := Retain(doc.metadata.tags, (y: string) => y in tags);
    assert |kept| > 0 ==> kept[0] in kept;
    |kept| > 0
  }

  function TagTest(tags: seq<string>): DiaryDoc -> bool {
    (x: DiaryDoc) => HasRequestedTag(x, tags)
  }

  /** `by_tags`: the documents carrying at least one of the requested tags, in their order. */
  function ByTags(diary: seq<DiaryDoc>, tags: seq<string>): seq<DiaryDoc> {
    Retain(diary, TagTest(tags))
  }

  /** `by_tags` keeps, in their order, exactly the documents sharing a tag with the request,
      each as often as the diary holds it; no requested tag selects nothing. */
  lemma ByTagsFilters(diary: seq<DiaryDoc>, tags: seq<string>)
    ensures IsSubsequence(ByTags(diary, tags), diary)
    ensures forall d :: d in ByTags(diary, tags) <==> d in diary && HasRequestedTag(d, tags)
    ensures forall d :: multiset(ByTags(diary, tags))[d] == if HasRequestedTag(d, tags) then multiset(diary)[d] else 0
    ensures tags == [] ==> ByTags(diary, tags) == []
  {
    RetainIsFilter(diary, TagTest(tags));
  }

  function PathTest(path: string): DiaryDoc -> bool {
    (x: DiaryDoc) => Contains(x.path, path)
  }

  /** `by_path`: the documents whose path contains `path`, in their order. */
  function ByPath(diary: seq<DiaryDoc>, path: string): seq<DiaryDoc> {
    Retain(diary, PathTest(path))
  }

  /** `by_path` keeps, in their order, exactly the documents whose path contains `path`,
      each as often as the diary holds it. */
  lemma ByPathFilters(diary: seq<DiaryDoc>, path: string)
    ensures IsSubsequence(ByPath(diary, path), diary)
    ensures forall d :: d in ByPath(diary, path) <==> d in diary && Contains(d.path, path)
    ensures forall d :: multiset(ByPath(diary, path))[d] == if Contains(d.path, path) then multiset(diary)[d] else 0
  {
    RetainIsFilter(diary, PathTest(path));
  }

  /** The empty path is contained in every path, so it keeps the whole diary. */
  lemma ByEmptyPath(diary: seq<DiaryDoc>)
    ensures ByPath(diary, "") == diary
  {
    forall d | d in diary
      ensures PathTest("")(d)
    {
      ContainsEmpty(d.path);
    }
    RetainEverything(diary, PathTest(""));
  }

  // ---------------------------------------------------------------------------------------
  // `sort_by_date`

  /** The sort key: the timestamp of the first range's start, 0 when there is no range. */
  function DateKey(d: DiaryDoc): int {
    var rs := d.WorklogRange();
    if |rs| < 1 then 0 else Timestamp(rs[0].start)
  }

  function DateKeyOf(): DiaryDoc -> int {
    (d: DiaryDoc) => DateKey(d)
  }

  /** `sort_by_date`: sorts the documents in place, stably, by the start of their first range. */
  method SortByDate(data: array<DiaryDoc>)
    modifies data
    ensures data[..] == SortedByKey(old(data[..]), DateKeyOf())
  {
    SortByKey(data, DateKeyOf());
  }

  // ---------------------------------------------------------------------------------------
  // `filter_date`

  /** The query window: from `st` on, and before `end` when there is one. */
  datatype Window = Window(st: DateTime, end: Option<DateTime>) {
    predicate Valid() {
      st.Valid() && (end.Some? ==> end.value.Valid())
    }
  }

  /** The window of `filter_date`: the start date at 00:00:00, and the end date at 23:59:59
      when there is one; unbounded above otherwise. */
  function WindowOf(startDate: Date, endDate: Option<Date>): (w: Window)
    requires startDate.Valid() && (endDate.Some? ==> endDate.value.Valid())
    ensures w.Valid()
    ensures w.end.Some? <==> endDate.Some?
  {
    if endDate.Some? then Window(AndHms(startDate, 0, 0, 0), Some(AndHms(endDate.value, 23, 59, 59)))
    else Window(AndHms(startDate, 0, 0, 0), None)
  }

  /** The window runs from the first second of the start date to the last second of the end
      date. */
  lemma WindowBounds(startDate: Date, endDate: Option<Date>)
    requires startDate.Valid() && (endDate.Some? ==> endDate.value.Valid())
    ensures Timestamp(WindowOf(startDate, endDate).st) == DayNumber(startDate) * 86400
    ensures endDate.Some? ==> Timestamp(WindowOf(startDate, endDate).end.value) == DayNumber(endDate.value) * 86400 + 86399
  {
    DayBounds(startDate);
    if endDate.Some? {
      DayBounds(endDate.value);
    }
  }

  /** The coarse test of `filter_date`: some range ends after the window starts and, when the
      window is bounded, some range starts before it ends. */
  predicate PassesCoarse(doc: DiaryDoc, w: Window)
    requires w.Valid()
  {
    doc.HasWorkAfter(w.st) && (w.end.Some? ==> doc.HasWorkBefore(w.end.value))
  }

  /** The entry test of the rewrite: the entry parses to a range that starts strictly after
      the window's start and, when the window is bounded, ends strictly before its end. */
  predicate InWindow(entry: string, w: Window)
    requires w.Valid()
  {
    match WorklogToDateRange(entry)
    case Ok(range) =>
      Timestamp(range.start) > Timestamp(w.st) && (w.end.Some? ==> Timestamp(range.end) < Timestamp(w.end.value))
    case Err(_) => false
  }

  function CoarseTest(w: Window): DiaryDoc -> bool
    requires w.Valid()
  {
    (x: DiaryDoc) => PassesCoarse(x, w)
  }

  function EntryTest(w: Window): string -> bool
    requires w.Valid()
  {
    (e: string) => InWindow(e, w)
  }

  function NonEmptyTest(): DiaryDoc -> bool {
    (x: DiaryDoc) => |x.metadata.worklog| > 0
  }

  /** A document with its worklog cut down to the entries inside the window; nothing else
      about it changes. */
  function Clip(doc: DiaryDoc, w: Window): (c: DiaryDoc)
    requires w.Valid()
    ensures c.path == doc.path
    ensures c.metadata == doc.metadata.(worklog := c.metadata.worklog)
  {
    doc.(metadata := doc.metadata.(worklog := Retain(doc.metadata.worklog, EntryTest(w))))
  }

  function ClipWith(w: Window): DiaryDoc -> DiaryDoc
    requires w.Valid()
  {
    (x: DiaryDoc) => Clip(x, w)
  }

  /** The documents `filter_date` keeps, before it sorts them: the coarse test, the rewrite
      of every remaining worklog and the removal of emptied documents, in turn. */
  function Windowed(data: seq<DiaryDoc>, w: Window): seq<DiaryDoc>
    requires w.Valid()
  {
    Retain(Map(Retain(data, CoarseTest(w)), ClipWith(w)), NonEmptyTest())
  }

  /** The reference definition of `filter_date`: the kept documents, stably sorted. */
  function DateQuery(data: seq<DiaryDoc>, w: Window): seq<DiaryDoc>
    requires w.Valid()
  {
    SortedByKey(Windowed(data, w), DateKeyOf())
  }

  /** `filter_date`. Its ordering and its members are stated about `DateQuery` by
      `DateQueryOrder` and `DateQueryMembers`. */
  method FilterDate(data: seq<DiaryDoc>, startDate: Date, endDate: Option<Date>) returns (r: seq<DiaryDoc>)
    requires startDate.Valid() && (endDate.Some? ==> endDate.value.Valid())
    ensures r == DateQuery(data, WindowOf(startDate, endDate))
  {
    var w := WindowOf(startDate, endDate);
    var docs := Retain(data, CoarseTest(w));
    docs := ClipEach(docs, w);
    docs := Retain(docs, NonEmptyTest());
    var a := new DiaryDoc[|docs|](j requires 0 <= j < |docs| => docs[j]);
    assert a[..] == docs;
    SortByDate(a);
    r := a[..];
  }

  /** The loop of `filter_date` that keeps, in each document's worklog, the entries inside
      the window. */
  method ClipEach(data: seq<DiaryDoc>, w: Window) returns (docs: seq<DiaryDoc>)
    requires w.Valid()
    ensures docs == Map(data, ClipWith(w))
  {
    docs := data;
    var i := 0;
    while i < |docs|
      invariant 0 <= i <= |docs| == |data|
      invariant forall j :: 0 <= j < i ==> docs[j] == Clip(data[j], w)
      invariant forall j :: i <= j < |docs| ==> docs[j] == data[j]
    {
      var worklog := docs[i].metadata.worklog;
      worklog := Retain(worklog, EntryTest(w));
      docs := docs[i := docs[i].(metadata := docs[i].metadata.(worklog := worklog))];
      i := i + 1;
    }
  }

  /** `by_date`: `filter_date` over the whole diary. */
  method ByDate(diary: seq<DiaryDoc>, startDate: Date, endDate: Option<Date>) returns (r: seq<DiaryDoc>)
    requires startDate.Valid() && (endDate.Some? ==> endDate.value.Valid())
    ensures r == DateQuery(diary, WindowOf(startDate, endDate))
  {
    r := FilterDate(diary, startDate, endDate);
  }

  /** `by_tags_and_date`: `filter_date` after `by_tags`. */
  method ByTagsAndDate(diary: seq<DiaryDoc>, tags: seq<string>, startDate: Date, endDate: Option<Date>)
    returns (r: seq<DiaryDoc>)
    requires startDate.Valid() && (endDate.Some? ==> endDate.value.Valid())
    ensures r == DateQuery(ByTags(diary, tags), WindowOf(startDate, endDate))
  {
    var data := ByTags(diary, tags);
    r := FilterDate(data, startDate, endDate);
  }

  /** `by_path_and_date`: `filter_date` after `by_path`. */
  method ByPathAndDate(diary: seq<DiaryDoc>, path: string, startDate: Date, endDate: Option<Date>)
    returns (r: seq<DiaryDoc>)
    requires startDate.Valid() && (endDate.Some? ==> endDate.value.Valid())
    ensures r == DateQuery(ByPath(diary, path), WindowOf(startDate, endDate))
  {
    var data := ByPath(diary, path);
    r := FilterDate(data, startDate, endDate);
  }

  // ---------------------------------------------------------------------------------------
  // Properties of `filter_date`

  /** The entry test in terms of the dates: a session must start after the first second of
      the start date and, with an end date, end before its last second. A session starting
      at midnight of the start date, or ending at 23:59:59 of the end date, is left out. */
  lemma InWindowBounds(entry: string, startDate: Date, endDate: Option<Date>)
    requires startDate.Valid() && (endDate.Some? ==> endDate.value.Valid())
    ensures InWindow(entry, WindowOf(startDate, endDate)) <==>
      (WorklogToDateRange(entry).Ok?
       && Timestamp(WorklogToDateRange(entry).value.start) > DayNumber(startDate) * 86400
       && (endDate.Some? ==>
             Timestamp(WorklogToDateRange(entry).value.end) < DayNumber(endDate.value) * 86400 + 86399))
  {
    WindowBounds(startDate, endDate);
  }

  /** The rewrite keeps, in their order, exactly the entries inside the window. */
  lemma ClipKeepsOrder(doc: DiaryDoc, w: Window)
    requires w.Valid()
    ensures IsSubsequence(Clip(doc, w).metadata.worklog, doc.metadata.worklog)
    ensures forall e :: e in Clip(doc, w).metadata.worklog <==> e in doc.metadata.worklog && InWindow(e, w)
    ensures forall e :: multiset(Clip(doc, w).metadata.worklog)[e] ==
                        if InWindow(e, w) then multiset(doc.metadata.worklog)[e] else 0
  {
    RetainIsFilter(doc.metadata.worklog, EntryTest(w));
  }

  /** A rewritten worklog that kept an entry yields a range: every kept entry parses. */
  lemma ClippedHasRange(doc: DiaryDoc, w: Window)
    requires w.Valid() && Clip(doc, w).metadata.worklog != []
    ensures |Clip(doc, w).WorklogRange()| > 0
  {
    var c := Clip(doc, w);
    var e := c.metadata.worklog[0];
    assert e in c.metadata.worklog;
    ClipKeepsOrder(doc, w);
    var r := WorklogToDateRange(e).value;
    RangesOfMembers(c.metadata.worklog);
    assert r in c.WorklogRange();
  }

  /** The documents `filter_date` keeps are the rewritten documents that passed the coarse
      test and kept an entry. */
  lemma WindowedMembers(data: seq<DiaryDoc>, w: Window)
    requires w.Valid()
    ensures forall d :: d in Windowed(data, w) <==>
      d.metadata.worklog != [] && exists o :: o in data && PassesCoarse(o, w) && d == Clip(o, w)
  {
    FilterMapFilter(data, CoarseTest(w), ClipWith(w), NonEmptyTest());
  }

  /** How `filter_date` orders its result: by the start of the first range, documents with
      equal keys in the order the diary had them; nothing is added or lost by the sort. */
  lemma DateQueryOrder(data: seq<DiaryDoc>, w: Window)
    requires w.Valid()
    ensures SortedBy(DateQuery(data, w), DateKeyOf())
    ensures multiset(DateQuery(data, w)) == multiset(Windowed(data, w))
    ensures forall k :: WithKey(DateQuery(data, w), DateKeyOf(), k) == WithKey(Windowed(data, w), DateKeyOf(), k)
  {
    SortedByKeyProperties(Windowed(data, w), DateKeyOf());
  }

  /** Which documents `filter_date` returns: the rewritten documents that passed the coarse
      test and kept an entry; each of them has at least one range. */
  lemma DateQueryMembers(data: seq<DiaryDoc>, w: Window)
    requires w.Valid()
    ensures forall d :: d in DateQuery(data, w) <==>
      d.metadata.worklog != [] && exists o :: o in data && PassesCoarse(o, w) && d == Clip(o, w)
    ensures forall d :: d in DateQuery(data, w) ==> |d.WorklogRange()| > 0
  {
    var kept := Windowed(data, w);
    SortedByKeyProperties(kept, DateKeyOf());
    SameMembers(DateQuery(data, w), kept);
    WindowedMembers(data, w);
    forall d | d in kept
      ensures |d.WorklogRange()| > 0
    {
      var o :| o in data && PassesCoarse(o, w) && d == Clip(o, w);
      ClippedHasRange(o, w);
    }
  }

  /** The coarse test never removes a document that has an entry inside the window whose
      range is in order (start no later than end); it only matters for reversed ranges. */
  lemma CoarseImpliedByEntry(doc: DiaryDoc, w: Window, e: string)
    requires w.Valid()
    requires e in doc.metadata.worklog && InWindow(e, w)
    requires Timestamp(WorklogToDateRange(e).value.start) <= Timestamp(WorklogToDateRange(e).value.end)
    ensures PassesCoarse(doc, w)
  {
    var r := WorklogToDateRange(e).value;
    var rs := doc.WorklogRange();
    RangesOfMembers(doc.metadata.worklog);
    assert r in rs;
    var i :| 0 <= i < |rs| && rs[i] == r;
  }
}
