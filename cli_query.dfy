/** src/cli/query.rs: which query the `query` command runs, given its arguments. The path
    read from standard input is a parameter; printing the results is not modelled. */
module CliQuery {
  import opened Wrappers
  import opened Text
  import opened Calendar
  import opened Model
  import opened Query

  /** The filter of the query function `run` calls: `all`, `by_tags` or `by_path`. */
  datatype Filter = Everything | Tags(tags: seq<string>) | PathPart(path: string)

  /** The query function `run` calls: a filter, and the dates of `filter_date` when there is
      a start date (`by_date`, `by_tags_and_date`, `by_path_and_date`). */
  datatype QueryCall = QueryCall(filter: Filter, st: Option<Date>, end: Option<Date>) {
    /** The dates of the call are calendar dates. */
    predicate Valid() {
      st.Some? ==> st.value.Valid() && (end.Some? ==> end.value.Valid())
    }
  }

  /** The path `run` filters by: the `path` argument, else the path read from standard
      input, else the empty string. */
  function ReceivedPath(path: Option<string>, stdinPath: Option<string>): string {
    if path.Some? then path.value else if stdinPath.Some? then stdinPath.value else ""
  }

  /** The choice of `run`: tags first, then a non-empty path, then no filter; the end date
      goes with the start date, and only with it. */
  function Dispatch(tags: Option<seq<string>>, received: string, startDate: Option<Date>, endDate: Option<Date>): QueryCall {
    var filter := if tags.Some? then Tags(tags.value) else if received != "" then PathPart(received) else Everything;
    if startDate.Some? then QueryCall(filter, startDate, endDate) else QueryCall(filter, None, None)
  }

  /** The documents a filter selects. */
  function Selected(filter: Filter, diary: seq<DiaryDoc>): seq<DiaryDoc> {
    match filter
    case Everything => All(diary)
    case Tags(tags) => ByTags(diary, tags)
    case PathPart(path) => ByPath(diary, path)
  }

  /** The documents a call returns, by the reference definitions of the queries. */
  function Results(call: QueryCall, diary: seq<DiaryDoc>): seq<DiaryDoc>
    requires call.Valid()
  {
    var selected := Selected(call.filter, diary);
    if call.st.Some? then DateQuery(selected, WindowOf(call.st.value, call.end)) else selected
  }

  /** `run` up to printing: the results of the chosen query over the loaded diary. */
  method Run(diary: seq<DiaryDoc>, tags: Option<seq<string>>, path: Option<string>, stdinPath: Option<string>,
             startDate: Option<Date>, endDate: Option<Date>) returns (results: seq<DiaryDoc>)
    requires startDate.Some? ==> startDate.value.Valid()
    requires endDate.Some? ==> endDate.value.Valid()
    ensures Dispatch(tags, ReceivedPath(path, stdinPath), startDate, endDate).Valid()
    ensures results == Results(Dispatch(tags, ReceivedPath(path, stdinPath), startDate, endDate), diary)
  {
    var received := if path.Some? then path.value else if stdinPath.Some? then stdinPath.value else "";
    if tags.Some? {
      if startDate.Some? {
        results := ByTagsAndDate(diary, tags.value, startDate.value, endDate);
      } else {
        results := ByTags(diary, tags.value);
      }
    } else if received != "" {
      if startDate.Some? {
        results := ByPathAndDate(diary, received, startDate.value, endDate);
      } else {
        results := ByPath(diary, received);
      }
    } else if startDate.Some? {
      results := ByDate(diary, startDate.value, endDate);
    } else {
      results := All(diary);
    }
  }

  // ---------------------------------------------------------------------------------------
  // Properties

  /** The `path` argument wins over standard input, whatever that holds. */
  lemma ExplicitPathWins(p: string, stdin1: Option<string>, stdin2: Option<string>)
    ensures ReceivedPath(Some(p), stdin1) == ReceivedPath(Some(p), stdin2) == p
  {
  }

  /** With tags the path is not consulted. */
  lemma TagsIgnorePath(tags: seq<string>, path1: string, path2: string, startDate: Option<Date>, endDate: Option<Date>)
    ensures Dispatch(Some(tags), path1, startDate, endDate) == Dispatch(Some(tags), path2, startDate, endDate)
  {
  }

  /** Without a start date the end date is not consulted. */
  lemma EndDateNeedsStart(tags: Option<seq<string>>, received: string, end1: Option<Date>, end2: Option<Date>)
    ensures Dispatch(tags, received, None, end1) == Dispatch(tags, received, None, end2)
  {
  }

  /** Without tags, path and start date, the whole diary is returned. */
  lemma NoFilterIsAll(diary: seq<DiaryDoc>, endDate: Option<Date>)
    ensures Results(Dispatch(None, "", None, endDate), diary) == diary
  {
  }

  /** Every document a date query returns is a document of its input with the same path and
      tags (only the worklog is rewritten). */
  lemma DateQueryKeepsIdentity(data: seq<DiaryDoc>, w: Window, d: DiaryDoc)
    requires w.Valid() && d in DateQuery(data, w)
    ensures exists o :: o in data && o.path == d.path && o.metadata.tags == d.metadata.tags
  {
    DateQueryMembers(data, w);
    var o :| o in data && PassesCoarse(o, w) && d == Clip(o, w);
    assert o.path == d.path && o.metadata.tags == d.metadata.tags;
  }

  /** With tags, every returned document carries one of them (date queries keep the tags of
      the documents they rewrite). */
  lemma {:induction false} TaggedResults(diary: seq<DiaryDoc>, tags: seq<string>, received: string,
                                         startDate: Option<Date>, endDate: Option<Date>)
    requires Dispatch(Some(tags), received, startDate, endDate).Valid()
    ensures forall d :: d in Results(Dispatch(Some(tags), received, startDate, endDate), diary) ==>
      HasRequestedTag(d, tags)
  {
    ByTagsFilters(diary, tags);
    if startDate.Some? {
      var w := WindowOf(startDate.value, endDate);
      forall d | d in DateQuery(ByTags(diary, tags), w)
        ensures HasRequestedTag(d, tags)
      {
        DateQueryKeepsIdentity(ByTags(diary, tags), w, d);
        var o :| o in ByTags(diary, tags) && o.path == d.path && o.metadata.tags == d.metadata.tags;
      }
    }
  }

  /** Without tags and with a non-empty path, every returned document's path contains it. */
  lemma {:induction false} PathResults(diary: seq<DiaryDoc>, received: string,
                                       startDate: Option<Date>, endDate: Option<Date>)
    requires received != ""
    requires Dispatch(None, received, startDate, endDate).Valid()
    ensures forall d :: d in Results(Dispatch(None, received, startDate, endDate), diary) ==>
      Contains(d.path, received)
  {
    ByPathFilters(diary, received);
    if startDate.Some? {
      var w := WindowOf(startDate.value, endDate);
      forall d | d in DateQuery(ByPath(diary, received), w)
        ensures Contains(d.path, received)
      {
        DateQueryKeepsIdentity(ByPath(diary, received), w, d);
        var o :| o in ByPath(diary, received) && o.path == d.path && o.metadata.tags == d.metadata.tags;
      }
    }
  }
}
