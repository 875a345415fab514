/** src/cli/action.rs: the `start`, `stop`, `sync-worklog` and `archive` commands. What the
    commands do to the world is recorded as a trace of effects: the error messages logged,
    the calls to `stop_active_docs`, `update_entry`, `archive_entry` and Jira's
    `sync_worklogs`. An `UpdateEntry` effect records the document `update_entry` is called
    with; it says nothing about the file, which `update_entry` (src/data.rs:63-70) reads but
    never writes. `is_archive` and the outcome of the Jira sync are parameters; the clock is
    the parameter `now`. */
module Action {
  import opened Wrappers
  import opened Sequences
  import opened Calendar
  import opened Model
  import opened Query

  datatype ActionKind = Start | Stop | SyncWorklog | Archive

  /** One observable step of a command. */
  datatype Effect =
    | LogError(msg: string)
    | StopActiveDocs
    | UpdateEntry(doc: DiaryDoc)
    | SyncWorklogs(doc: DiaryDoc)
    | ArchiveEntry(doc: DiaryDoc)

  const AlreadyActive := "Requested doc is already active"
  const NotActive := "Requested doc is not active"
  const AlreadyArchived := "Selected doc is already archived"
  const NoMatch := "Path doesn't match any document"

  /** The document after `start(now)`. */
  function StartedDoc(doc: DiaryDoc, now: DateTime): DiaryDoc
    requires now.Printable()
  {
    DiaryDoc(doc.metadata.(worklog := Started(doc.metadata.worklog, now)), doc.path)
  }

  /** The document after `stop(now)`. */
  function StoppedDoc(doc: DiaryDoc, now: DateTime): DiaryDoc
    requires doc.metadata.worklog != [] && now.Printable()
  {
    DiaryDoc(doc.metadata.(worklog := Stopped(doc.metadata.worklog, now)), doc.path)
  }

  /** The effects of `do_action(kind, doc)` at time `now`. `sync` stands for
      `Jira.SyncWorklogs` on the document, with the Jira key, the fetched worklogs and the
      upload outcomes fixed; only its pass or failure matters here. */
  function Effects(kind: ActionKind, doc: DiaryDoc, now: DateTime, isArchive: DiaryDoc -> bool,
                   sync: DiaryDoc -> Outcome<string>): seq<Effect>
    requires now.Printable()
  {
    match kind
    case Start =>
      if doc.IsActive() then [LogError(AlreadyActive)]
      else [StopActiveDocs, UpdateEntry(StartedDoc(doc, now))]
    case Stop =>
      if !doc.IsActive() then [LogError(NotActive)]
      else
        ActiveIffOpenEntry(doc);
        [UpdateEntry(StoppedDoc(doc, now))]
    case SyncWorklog =>
      var outcome := sync(doc);
      [SyncWorklogs(doc)] + (if outcome.Fail? then [LogError(outcome.error)] else [])
    case Archive =>
      if isArchive(doc) then [LogError(AlreadyArchived)] else [ArchiveEntry(doc)]
  }

  /** `do_action`: the guards, then the mutating `start` or `stop` on the document, then
      the call to `update_entry` with it. */
  method DoAction(kind: ActionKind, doc: DiaryDoc, now: DateTime, isArchive: DiaryDoc -> bool,
                  sync: DiaryDoc -> Outcome<string>) returns (effects: seq<Effect>)
    requires now.Printable()
    ensures effects == Effects(kind, doc, now, isArchive, sync)
  {
    var d := new MutDiaryDoc(doc);
    match kind
    case Start =>
      if d.Value().IsActive() {
        return [LogError(AlreadyActive)];
      }
      effects := [StopActiveDocs];
      d.Start(now);
      effects := effects + [UpdateEntry(d.Value())];
    case Stop =>
      if !d.Value().IsActive() {
        return [LogError(NotActive)];
      }
      ActiveIffOpenEntry(doc);
      d.Stop(now);
      effects := [UpdateEntry(d.Value())];
    case SyncWorklog =>
      effects := [SyncWorklogs(doc)];
      var outcome := sync(doc);
      if outcome.Fail? {
        effects := effects + [LogError(outcome.error)];
      }
    case Archive =>
      if isArchive(doc) {
        return [LogError(AlreadyArchived)];
      }
      effects := [ArchiveEntry(doc)];
  }

  function EffectsOf(kind: ActionKind, now: DateTime, isArchive: DiaryDoc -> bool,
                     sync: DiaryDoc -> Outcome<string>): DiaryDoc -> seq<Effect>
    requires now.Printable()
  {
    (doc: DiaryDoc) => Effects(kind, doc, now, isArchive, sync)
  }

  /** The documents `run` acts on: those whose path contains the `path` argument, or, without
      one, the documents matched by the paths read from standard input. */
  function Matched(diary: seq<DiaryDoc>, path: Option<string>, stdinMatches: seq<DiaryDoc>): seq<DiaryDoc> {
    if path.Some? then ByPath(diary, path.value) else stdinMatches
  }

  /** The effects of `run` over the matched documents. */
  function RunEffects(matched: seq<DiaryDoc>, kind: ActionKind, now: DateTime, isArchive: DiaryDoc -> bool,
                      sync: DiaryDoc -> Outcome<string>): seq<Effect>
    requires now.Printable()
  {
    if |matched| < 1 then [LogError(NoMatch)] else FlatMap(matched, EffectsOf(kind, now, isArchive, sync))
  }

  /** `run`: the documents are matched, then an error is logged when none is, else
      `do_action` runs on each in turn. */
  method Run(diary: seq<DiaryDoc>, path: Option<string>, stdinMatches: seq<DiaryDoc>, kind: ActionKind,
             now: DateTime, isArchive: DiaryDoc -> bool, sync: DiaryDoc -> Outcome<string>) returns (effects: seq<Effect>)
    requires now.Printable()
    ensures effects == RunEffects(Matched(diary, path, stdinMatches), kind, now, isArchive, sync)
  {
    var results := if path.Some? then ByPath(diary, path.value) else stdinMatches;
    if |results| < 1 {
      return [LogError(NoMatch)];
    }
    effects := [];
    for i := 0 to |results|
      invariant effects == FlatMap(results[..i], EffectsOf(kind, now, isArchive, sync))
    {
      var e := DoAction(kind, results[i], now, isArchive, sync);
      FlatMapSnoc(results, EffectsOf(kind, now, isArchive, sync), i);
      effects := effects + e;
    }
    assert results[..|results|] == results;
  }

  // ---------------------------------------------------------------------------------------
  // Properties

  /** `start` on an active document only logs an error: neither `stop_active_docs` nor
      `update_entry` is called. On an inactive one, `stop_active_docs` is called first, then
      `update_entry` with the started document: active, with one open entry at the end of its
      worklog and the same ranges as before. */
  lemma StartGuard(doc: DiaryDoc, now: DateTime, isArchive: DiaryDoc -> bool, sync: DiaryDoc -> Outcome<string>)
    requires now.Printable()
    ensures doc.IsActive() ==> Effects(Start, doc, now, isArchive, sync) == [LogError(AlreadyActive)]
    ensures !doc.IsActive() ==>
      var e := Effects(Start, doc, now, isArchive, sync);
      |e| == 2 && e[0] == StopActiveDocs && e[1].UpdateEntry? &&
      e[1].doc.IsActive() && e[1].doc.path == doc.path &&
      e[1].doc.metadata.worklog == doc.metadata.worklog + [StartEntry(now)] &&
      e[1].doc.WorklogRange() == doc.WorklogRange()
  {
    StartedIsActive(doc.metadata.worklog, now);
  }

  /** `stop` on an inactive document only logs an error. On an active one (whose worklog is
      then not empty) `update_entry` is called with the stopped document: `now` appended to
      its last entry and every other entry kept. */
  lemma StopGuard(doc: DiaryDoc, now: DateTime, isArchive: DiaryDoc -> bool, sync: DiaryDoc -> Outcome<string>)
    requires now.Printable()
    ensures !doc.IsActive() ==> Effects(Stop, doc, now, isArchive, sync) == [LogError(NotActive)]
    ensures doc.IsActive() ==>
      var w := doc.metadata.worklog;
      var e := Effects(Stop, doc, now, isArchive, sync);
      w != [] && |e| == 1 && e[0].UpdateEntry? && e[0].doc.path == doc.path &&
      |e[0].doc.metadata.worklog| == |w| &&
      e[0].doc.metadata.worklog[..|w| - 1] == w[..|w| - 1] &&
      e[0].doc.metadata.worklog[|w| - 1] == w[|w| - 1] + FormatTs(now)
  {
    ActiveIffOpenEntry(doc);
  }

  /** `start` at `s` then `stop` at `n` on an inactive document closes one session: the
      document `update_entry` is called with last is inactive and has exactly the range
      `(s, n)` more, at the end. */
  lemma StartThenStopSession(doc: DiaryDoc, s: DateTime, n: DateTime, isArchive: DiaryDoc -> bool,
                             sync: DiaryDoc -> Outcome<string>)
    requires !doc.IsActive() && s.Printable() && n.Printable()
    ensures
      var started := Effects(Start, doc, s, isArchive, sync);
      |started| == 2 && started[1].UpdateEntry? &&
      var stopped := Effects(Stop, started[1].doc, n, isArchive, sync);
      |stopped| == 1 && stopped[0].UpdateEntry? &&
      !stopped[0].doc.IsActive() && stopped[0].doc.path == doc.path &&
      stopped[0].doc.WorklogRange() == doc.WorklogRange() + [Range(s, n)]
  {
    StartedIsActive(doc.metadata.worklog, s);
    StartThenStop(doc.metadata.worklog, s, n);
  }

  /** `archive` on an archived document only logs an error; otherwise the document is
      archived and nothing else happens. */
  lemma ArchiveGuard(doc: DiaryDoc, now: DateTime, isArchive: DiaryDoc -> bool, sync: DiaryDoc -> Outcome<string>)
    requires now.Printable()
    ensures isArchive(doc) ==> Effects(Archive, doc, now, isArchive, sync) == [LogError(AlreadyArchived)]
    ensures ArchiveEntry(doc) in Effects(Archive, doc, now, isArchive, sync) <==> !isArchive(doc)
  {
  }

  /** A failed Jira sync ends in its error being logged, and `update_entry` is not called. */
  lemma SyncErrorLogged(doc: DiaryDoc, now: DateTime, isArchive: DiaryDoc -> bool, sync: DiaryDoc -> Outcome<string>)
    requires now.Printable()
    ensures var e := Effects(SyncWorklog, doc, now, isArchive, sync);
      e[0] == SyncWorklogs(doc) &&
      (sync(doc).Fail? ==> e == [SyncWorklogs(doc), LogError(sync(doc).error)]) &&
      (sync(doc).Pass? ==> e == [SyncWorklogs(doc)])
  {
  }

  /** With no matched document, the error is the only effect. */
  lemma RunNoMatch(kind: ActionKind, now: DateTime, isArchive: DiaryDoc -> bool, sync: DiaryDoc -> Outcome<string>)
    requires now.Printable()
    ensures RunEffects([], kind, now, isArchive, sync) == [LogError(NoMatch)]
  {
  }

  /** The only document `start` hands to `update_entry` is the started document. */
  lemma StartUpdatesStarted(doc: DiaryDoc, now: DateTime, isArchive: DiaryDoc -> bool, sync: DiaryDoc -> Outcome<string>)
    requires now.Printable()
    ensures forall x :: x in Effects(Start, doc, now, isArchive, sync) && x.UpdateEntry? ==> x.doc == StartedDoc(doc, now)
  {
  }

  lemma StartedDocIsActive(doc: DiaryDoc, now: DateTime)
    requires now.Printable()
    ensures StartedDoc(doc, now).IsActive()
  {
    StartedIsActive(doc.metadata.worklog, now);
  }

  /** The effects of a command on one document concern that document only: the document
      passed to `update_entry` keeps its path (and after `start` it is active), and an archive
      is of the document itself when it was not archived. */
  lemma EffectsStayOnDoc(kind: ActionKind, doc: DiaryDoc, now: DateTime, isArchive: DiaryDoc -> bool,
                         sync: DiaryDoc -> Outcome<string>)
    requires now.Printable()
    ensures forall x :: x in Effects(kind, doc, now, isArchive, sync) && x.UpdateEntry? ==>
      x.doc.path == doc.path && (kind == Start ==> x.doc.IsActive())
    ensures forall x :: x in Effects(kind, doc, now, isArchive, sync) && x.ArchiveEntry? ==>
      x.doc == doc && !isArchive(doc)
  {
    var e := Effects(kind, doc, now, isArchive, sync);
    match kind
    case Start =>
      StartUpdatesStarted(doc, now, isArchive, sync);
      StartedDocIsActive(doc, now);
    case Stop =>
      if doc.IsActive() {
        ActiveIffOpenEntry(doc);
        assert e == [UpdateEntry(StoppedDoc(doc, now))];
      }
    case SyncWorklog =>
      assert forall x :: x in e ==> x.SyncWorklogs? || x.LogError?;
    case Archive =>
  }

  /** What a command does over several documents: every document passed to `update_entry`
      or archived is one of the matched documents after its own command; a `start` run passes
      only active documents to `update_entry`, and an `archive` run archives only documents
      that were not archived. */
  lemma {:induction false} RunActsOnMatched(matched: seq<DiaryDoc>, kind: ActionKind, now: DateTime,
                                            isArchive: DiaryDoc -> bool, sync: DiaryDoc -> Outcome<string>)
    requires now.Printable()
    ensures forall x :: x in RunEffects(matched, kind, now, isArchive, sync) && x.UpdateEntry? ==>
      exists d :: d in matched && UpdateEntry(x.doc) in Effects(kind, d, now, isArchive, sync) && d.path == x.doc.path
    ensures kind == Start ==> forall x :: x in RunEffects(matched, kind, now, isArchive, sync) && x.UpdateEntry? ==>
      x.doc.IsActive()
    ensures forall x :: x in RunEffects(matched, kind, now, isArchive, sync) && x.ArchiveEntry? ==>
      x.doc in matched && !isArchive(x.doc)
  {
    var f := EffectsOf(kind, now, isArchive, sync);
    if |matched| >= 1 {
      forall x: Effect | x in FlatMap(matched, f)
        ensures x.UpdateEntry? ==>
          exists d :: d in matched && UpdateEntry(x.doc) in Effects(kind, d, now, isArchive, sync) && d.path == x.doc.path
        ensures kind == Start && x.UpdateEntry? ==> x.doc.IsActive()
        ensures x.ArchiveEntry? ==> x.doc in matched && !isArchive(x.doc)
      {
        FlatMapMembers(matched, f, x);
        var i :| 0 <= i < |matched| && x in f(matched[i]);
        var d := matched[i];
        assert d in matched && x in Effects(kind, d, now, isArchive, sync);
        EffectsStayOnDoc(kind, d, now, isArchive, sync);
      }
    }
  }
}
