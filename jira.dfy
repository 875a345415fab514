/** src/jira.rs: the Jira key of a document and the upload of its worklog ranges that Jira
    does not hold yet. The HTTP calls are parameters: the outcome of fetching a ticket's
    worklogs, and the outcome of each upload request. So are the local-time conversions
    `ts_to_string` and `date_string_to_local_date_string`. */
module Jira {
  import opened Wrappers
  import opened Text
  import opened Sequences
  import opened Calendar
  import opened Model
  import opened Data

  // ---------------------------------------------------------------------------------------
  // `jira_key` and `worklog_uri`

  /** `jira_key`: the file name after the last `/`, up to its last `.`. `None` stands for the
      panics of the two `unwrap`s: no `/` in the path, or no `.` in the file name. */
  function JiraKey(path: string): (key: Option<string>)
    ensures '/' !in path ==> key.None?
    ensures key.Some? ==> '/' !in key.value
  {
    match RSplitOnce(path, '/')
    case None => None
    case Some((_, fname)) =>
      match RSplitOnce(fname, '.')
      case None => None
      case Some((stem, _)) =>
        assert fname == stem + ['.'] + RSplitOnce(fname, '.').value.1;
        assert forall i :: 0 <= i < |stem| ==> stem[i] == fname[i];
        Some(stem)
  }

  /** The key of `dir/key.ext`, with `ext` free of dots and the file name free of slashes, is
      `key`: everything from the last dot on is dropped, and only that. */
  lemma JiraKeyOf(dir: string, key: string, ext: string)
    requires '/' !in key && '/' !in ext && '.' !in ext
    ensures JiraKey(dir + "/" + key + "." + ext) == Some(key)
  {
    var fname := key + ['.'] + ext;
    assert dir + "/" + key + "." + ext == dir + ['/'] + fname;
    RSplitOnceUnique(dir + ['/'] + fname, '/', dir, fname);
    RSplitOnceUnique(fname, '.', key, ext);
  }

  /** A file name without a dot has no key (`jira_key` panics). */
  lemma JiraKeyNeedsDot(dir: string, fname: string)
    requires '/' !in fname && '.' !in fname
    ensures JiraKey(dir + "/" + fname) == None
  {
    var path := dir + "/" + fname;
    assert path == dir + ['/'] + fname;
    RSplitOnceUnique(path, '/', dir, fname);
  }

  /** `rsplit_once` splits at the last occurrence: a split with no `c` after it is the one. */
  lemma RSplitOnceUnique(s: string, c: char, a: string, b: string)
    requires s == a + [c] + b && c !in b
    ensures RSplitOnce(s, c) == Some((a, b))
  {
    var r := RSplitOnce(s, c);
    assert c == s[|a|];
    var a', b' := r.value.0, r.value.1;
    NoneAfter(s, c, a, b);
    NoneAfter(s, c, a', b');
    assert s[|a'|] == c;
    assert |a'| == |a|;
    assert a' == s[..|a|] == a;
    assert b' == s[|a| + 1..] == b;
  }

  /** Past the `c` of `a + [c] + b`, with no `c` in `b`, there is no `c`. */
  lemma NoneAfter(s: string, c: char, a: string, b: string)
    requires s == a + [c] + b && c !in b
    ensures s[|a|] == c
    ensures forall k :: |a| < k < |s| ==> s[k] != c
  {
    forall k | |a| < k < |s|
      ensures s[k] != c
    {
      assert s[k] == b[k - |a| - 1];
    }
  }

  /** A document created for a ticket by `create_entry` gives its ticket key back, so
      `sync-worklog` reaches the ticket the document was made for. */
  lemma CreatedEntryKey(ticket: Ticket, base: Option<string>, root: string)
    requires '/' !in ticket.key
    ensures JiraKey(root + "/" + EntryDir(ticket.key, base) + "/" + ticket.key + ".md") == Some(ticket.key)
  {
    JiraKeyOf(root + "/" + EntryDir(ticket.key, base), ticket.key, "md");
    assert root + "/" + EntryDir(ticket.key, base) + "/" + ticket.key + ".md"
      == (root + "/" + EntryDir(ticket.key, base)) + "/" + ticket.key + "." + "md";
  }

  /** `worklog_uri`: the REST path of a ticket's worklogs. */
  function WorklogUri(key: string): (uri: string)
    ensures |uri| == |key| + 26 && uri[18..18 + |key|] == key
  {
    "/rest/api/2/issue/" + key + "/worklog"
  }

  /** Different tickets have different worklog paths. */
  lemma WorklogUriInjective(k1: string, k2: string)
    requires WorklogUri(k1) == WorklogUri(k2)
    ensures k1 == k2
  {
    assert |k1| == |k2|;
    assert k1 == WorklogUri(k1)[18..18 + |k1|];
  }

  // ---------------------------------------------------------------------------------------
  // `sync_worklogs`

  /** A worklog held by Jira: `JiraWorklog`. */
  datatype JiraWorklog = JiraWorklog(timeSpentSeconds: int, started: string, id: string)

  /** The body `sync_worklog` sends: `WorklogBody`. */
  datatype WorklogBody = WorklogBody(comment: string, started: string, timeSpentSeconds: int)

  /** One request of `sync_worklog`: a worklog posted to a ticket's worklog path. */
  datatype Upload = Upload(uri: string, body: WorklogBody)

  /** The request `sync_worklog` makes for a range: started at the range's start, as long as
      the range, without comment. */
  function UploadOf(key: string, tsToString: DateTime -> string): Range -> Upload {
    (r: Range) => Upload(WorklogUri(key), WorklogBody("", tsToString(r.start), if r.WellFormed() then r.Duration() else 0))
  }

  /** A range is skipped when its formatted start is among the existing `started` strings. */
  function NotSkipped(existing: seq<string>, tsToString: DateTime -> string): Range -> bool {
    (r: Range) => tsToString(r.start) !in existing
  }

  /** The existing worklogs' `started` strings, each converted to local time. */
  function Existing(worklogs: seq<JiraWorklog>, localize: string -> string): seq<string> {
    Map(worklogs, (w: JiraWorklog) => localize(w.started))
  }

  /** Every upload the loop would make if none failed: one per range not skipped, in order. */
  function Planned(key: string, ranges: seq<Range>, existing: seq<string>, tsToString: DateTime -> string): seq<Upload> {
    Map(Retain(ranges, NotSkipped(existing, tsToString)), UploadOf(key, tsToString))
  }

  /** The index of the first upload that fails, or the number of uploads when none does. */
  function FirstFailure(uploads: seq<Upload>, send: Upload -> Outcome<string>): (n: nat)
    ensures n <= |uploads|
    ensures forall j :: 0 <= j < n ==> send(uploads[j]).Pass?
    ensures n < |uploads| ==> send(uploads[n]).Fail?
  {
    if uploads == [] then 0
    else if send(uploads[0]).Fail? then 0
    else 1 + FirstFailure(uploads[1..], send)
  }

  /** What the loop does with the planned uploads: they are made in order up to and
      including the first failure, whose error is returned. */
  function Sent(uploads: seq<Upload>, send: Upload -> Outcome<string>): (Outcome<string>, seq<Upload>) {
    var n := FirstFailure(uploads, send);
    if n < |uploads| then (send(uploads[n]), uploads[..n + 1]) else (Pass, uploads)
  }

  /** `sync_worklogs` by the reference definitions: the fetch error, or the planned uploads
      sent until one fails. */
  function SyncOutcome(doc: DiaryDoc, fetched: Result<seq<JiraWorklog>, string>, tsToString: DateTime -> string,
                       localize: string -> string, send: Upload -> Outcome<string>): (Outcome<string>, seq<Upload>)
    requires JiraKey(doc.path).Some?
  {
    match fetched
    case Err(e) => (Fail(e), [])
    case Ok(worklogs) =>
      Sent(Planned(JiraKey(doc.path).value, doc.WorklogRange(), Existing(worklogs, localize), tsToString), send)
  }

  /** `sync_worklogs`: the outcome and the uploads made. `fetched` is what `fetch_worklogs`
      returns for the document's key and `send` what the server answers to each upload. */
  method SyncWorklogs(doc: DiaryDoc, fetched: Result<seq<JiraWorklog>, string>, tsToString: DateTime -> string,
                      localize: string -> string, send: Upload -> Outcome<string>)
    returns (outcome: Outcome<string>, uploads: seq<Upload>)
    requires JiraKey(doc.path).Some?
    ensures (outcome, uploads) == SyncOutcome(doc, fetched, tsToString, localize, send)
  {
    var key := JiraKey(doc.path).value;
    if fetched.Err? {
      return Fail(fetched.error), [];
    }
    var existing := Existing(fetched.value, localize);
    outcome, uploads := UploadRanges(key, doc.WorklogRange(), existing, tsToString, send);
  }

  /** The loop of `sync_worklogs`: each range whose start Jira already holds is skipped, the
      others are uploaded in order, and the first failed upload ends the loop. */
  method UploadRanges(key: string, ranges: seq<Range>, existing: seq<string>, tsToString: DateTime -> string,
                      send: Upload -> Outcome<string>) returns (outcome: Outcome<string>, uploads: seq<Upload>)
    requires forall i :: 0 <= i < |ranges| ==> ranges[i].WellFormed()
    ensures (outcome, uploads) == Sent(Planned(key, ranges, existing, tsToString), send)
  {
    ghost var plan := Planned(key, ranges, existing, tsToString);
    uploads := [];
    for i := 0 to |ranges|
      invariant uploads == Planned(key, ranges[..i], existing, tsToString)
      invariant forall j :: 0 <= j < |uploads| ==> send(uploads[j]).Pass?
    {
      PlannedSnoc(key, ranges, existing, tsToString, i);
      var started := tsToString(ranges[i].start);
      if started in existing {
        assert !NotSkipped(existing, tsToString)(ranges[i]);
        continue;
      }
      var request := Upload(WorklogUri(key), WorklogBody("", started, ranges[i].Duration()));
      assert NotSkipped(existing, tsToString)(ranges[i]) && request == UploadOf(key, tsToString)(ranges[i]);
      uploads := uploads + [request];
      assert uploads == Planned(key, ranges[..i + 1], existing, tsToString);
      var answer := send(request);
      if answer.Fail? {
        FailedUpload(key, ranges, existing, tsToString, send, i, uploads);
        return answer, uploads;
      }
      assert forall j :: 0 <= j < |uploads| ==> send(uploads[j]).Pass?;
    }
    assert ranges[..|ranges|] == ranges;
    NoFailure(plan, send);
    outcome := Pass;
  }

  /** The loop's state when the upload of range `i` fails: its work is done. */
  lemma FailedUpload(key: string, ranges: seq<Range>, existing: seq<string>, tsToString: DateTime -> string,
                     send: Upload -> Outcome<string>, i: nat, uploads: seq<Upload>)
    requires i < |ranges| && uploads != []
    requires uploads == Planned(key, ranges[..i + 1], existing, tsToString)
    requires forall j :: 0 <= j < |uploads| - 1 ==> send(uploads[j]).Pass?
    requires send(uploads[|uploads| - 1]).Fail?
    ensures Sent(Planned(key, ranges, existing, tsToString), send) == (send(uploads[|uploads| - 1]), uploads)
  {
    PlannedSplit(key, ranges, existing, tsToString, i + 1);
    StopsAtFailure(Planned(key, ranges, existing, tsToString), send, uploads);
  }

  /** When the uploads made so far are a prefix of the plan, all passed but the last, and the
      last failed, the loop's work is done. */
  lemma StopsAtFailure(plan: seq<Upload>, send: Upload -> Outcome<string>, uploads: seq<Upload>)
    requires 0 < |uploads| <= |plan| && plan[..|uploads|] == uploads
    requires forall j :: 0 <= j < |uploads| - 1 ==> send(uploads[j]).Pass?
    requires send(uploads[|uploads| - 1]).Fail?
    ensures Sent(plan, send) == (send(uploads[|uploads| - 1]), uploads)
  {
    var k := |uploads| - 1;
    assert forall j :: 0 <= j < k ==> plan[j] == uploads[j];
    assert FirstFailure(plan, send) == k;
  }

  /** When every planned upload passes, they are all made and the outcome is a success. */
  lemma NoFailure(plan: seq<Upload>, send: Upload -> Outcome<string>)
    requires forall j :: 0 <= j < |plan| ==> send(plan[j]).Pass?
    ensures Sent(plan, send) == (Pass, plan)
  {
  }

  /** The planned uploads of one more range. */
  lemma PlannedSnoc(key: string, ranges: seq<Range>, existing: seq<string>, tsToString: DateTime -> string, i: nat)
    requires i < |ranges|
    ensures Planned(key, ranges[..i + 1], existing, tsToString)
      == Planned(key, ranges[..i], existing, tsToString)
         + (if NotSkipped(existing, tsToString)(ranges[i]) then [UploadOf(key, tsToString)(ranges[i])] else [])
  {
    var p := NotSkipped(existing, tsToString);
    assert ranges[..i + 1] == ranges[..i] + [ranges[i]];
    RetainAppend(ranges[..i], [ranges[i]], p);
    assert Retain([ranges[i]], p) == if p(ranges[i]) then [ranges[i]] else [];
    MapAppend(Retain(ranges[..i], p), Retain([ranges[i]], p), UploadOf(key, tsToString));
  }

  /** The planned uploads of a prefix are a prefix of the planned uploads. */
  lemma PlannedSplit(key: string, ranges: seq<Range>, existing: seq<string>, tsToString: DateTime -> string, i: nat)
    requires i <= |ranges|
    ensures var pre := Planned(key, ranges[..i], existing, tsToString);
      |pre| <= |Planned(key, ranges, existing, tsToString)| && Planned(key, ranges, existing, tsToString)[..|pre|] == pre
  {
    var p := NotSkipped(existing, tsToString);
    assert ranges == ranges[..i] + ranges[i..];
    RetainAppend(ranges[..i], ranges[i..], p);
    MapAppend(Retain(ranges[..i], p), Retain(ranges[i..], p), UploadOf(key, tsToString));
  }

  // ---------------------------------------------------------------------------------------
  // Properties

  /** If fetching the existing worklogs fails, its error is returned and nothing is uploaded. */
  lemma FetchErrorUploadsNothing(doc: DiaryDoc, e: string, tsToString: DateTime -> string,
                                 localize: string -> string, send: Upload -> Outcome<string>)
    requires JiraKey(doc.path).Some?
    ensures SyncOutcome(doc, Err(e), tsToString, localize, send) == (Fail(e), [])
  {
  }

  /** The planned uploads are those of the ranges whose start Jira does not hold; each is
      posted to the ticket's worklogs, without comment, with a start Jira does not hold. */
  lemma {:induction false} PlannedUploads(key: string, ranges: seq<Range>, existing: seq<string>, tsToString: DateTime -> string)
    ensures forall u :: u in Planned(key, ranges, existing, tsToString) <==>
      (exists r :: r in ranges && tsToString(r.start) !in existing && u == UploadOf(key, tsToString)(r))
    ensures forall u :: u in Planned(key, ranges, existing, tsToString) ==>
      u.uri == WorklogUri(key) && u.body.comment == "" && u.body.started !in existing
  {
    var f := UploadOf(key, tsToString);
    var kept := Retain(ranges, NotSkipped(existing, tsToString));
    var plan := Planned(key, ranges, existing, tsToString);
    forall u
      ensures u in plan <==> (exists r :: r in ranges && tsToString(r.start) !in existing && u == f(r))
      ensures u in plan ==> u.uri == WorklogUri(key) && u.body.comment == "" && u.body.started !in existing
    {
      if u in plan {
        var i :| 0 <= i < |plan| && plan[i] == u;
        assert kept[i] in kept;
      }
      if exists r :: r in ranges && tsToString(r.start) !in existing && u == f(r) {
        var r :| r in ranges && tsToString(r.start) !in existing && u == f(r);
        assert r in kept;
        var i :| 0 <= i < |kept| && kept[i] == r;
        assert plan[i] == u;
      }
    }
  }

  /** The upload of a range carries the range's start and its length in seconds. */
  lemma UploadOfRange(key: string, tsToString: DateTime -> string, r: Range)
    requires r.WellFormed()
    ensures UploadOf(key, tsToString)(r).body.started == tsToString(r.start)
    ensures UploadOf(key, tsToString)(r).body.timeSpentSeconds == Timestamp(r.end) - Timestamp(r.start)
  {
  }

  /** The planned uploads keep the order of the ranges: no range is uploaded twice as a
      result of skipping, and the plan is as long as the ranges kept. */
  lemma PlannedInOrder(key: string, ranges: seq<Range>, existing: seq<string>, tsToString: DateTime -> string)
    ensures var kept := Retain(ranges, NotSkipped(existing, tsToString));
      IsSubsequence(kept, ranges) &&
      Planned(key, ranges, existing, tsToString) == Map(kept, UploadOf(key, tsToString))
  {
    RetainIsFilter(ranges, NotSkipped(existing, tsToString));
  }

  /** What the loop makes of a plan: a prefix of it, all passing but possibly the last; a
      success exactly when every planned upload was made and passed; otherwise the error of
      the last upload made, after which no other is made. */
  lemma {:induction false} SentIsPrefix(plan: seq<Upload>, send: Upload -> Outcome<string>)
    ensures var (outcome, uploads) := Sent(plan, send);
      |uploads| <= |plan| && plan[..|uploads|] == uploads &&
      (outcome.Pass? <==> uploads == plan && forall j :: 0 <= j < |plan| ==> send(plan[j]).Pass?) &&
      (outcome.Fail? ==>
        uploads != [] && outcome == send(uploads[|uploads| - 1]) &&
        (forall j :: 0 <= j < |uploads| - 1 ==> send(uploads[j]).Pass?))
  {
    var n := FirstFailure(plan, send);
    if n < |plan| {
      var uploads := plan[..n + 1];
      assert uploads[n] == plan[n];
      assert !(forall j :: 0 <= j < |plan| ==> send(plan[j]).Pass?) by {
        assert send(plan[n]).Fail?;
      }
    }
  }
}
