// One article and its version rows: the live row, the published history and the
// rolling autosave draft of apps/api/src/articles/articles.service.ts, as a
// state machine over whole operations.
module ArticleHistory {
  import opened Basics
  import opened VersionLog

  // --------------------------------------------------------------------
  // Rows
  // --------------------------------------------------------------------

  datatype Mode = Tiptap | Markdown

  datatype Doc = Doc(valid: bool, payload: int)

  datatype Body = Body(mode: Mode, content: Option<Doc>, source: Option<string>)

  // A stored excerpt: none, a caller's text, or the one derived from a body.
  datatype Excerpt = NoExcerpt | Given(text: string) | Derived(from: Body)

  // What a version row snapshots.
  datatype Row = Row(title: string, slug: string, folder: Option<nat>, visible: bool, body: Body, excerpt: Excerpt)

  // The fields a change of which makes a version (the excerpt is not one).
  datatype Versioned = Title | Slug | Folder | Visible | EditorMode | Content | Source

  const VERSIONED_FIELDS: set<Versioned> := {Title, Slug, Folder, Visible, EditorMode, Content, Source}

  predicate Differs(f: Versioned, a: Row, b: Row) {
    match f
    case Title => a.title != b.title
    case Slug => a.slug != b.slug
    case Folder => a.folder != b.folder
    case Visible => a.visible != b.visible
    case EditorMode => a.body.mode != b.body.mode
    case Content => a.body.content != b.body.content
    case Source => a.body.source != b.body.source
  }

  function Diff(a: Row, b: Row): set<Versioned> { set f | f in VERSIONED_FIELDS && Differs(f, a, b) }

  // Equal in title, slug, visibility, mode and body.
  predicate SameText(a: Row, b: Row) { Diff(a, b) <= {Folder} }

  // A version row's snapshot, and the fields the row says it changed.
  datatype Snapshot = Snapshot(row: Row, changed: set<Versioned>)

  type Versions = seq<Version<Snapshot>>

  datatype State = State(live: Row, archived: bool, revision: nat, versions: Versions)

  predicate WellFormed(b: Body) {
    match b.mode
    case Tiptap => b.content.Some? && b.content.value.valid && b.source.None?
    case Markdown => b.content.None? && b.source.Some?
  }

  // --------------------------------------------------------------------
  // Operations
  // --------------------------------------------------------------------

  datatype UpdateInput = UpdateInput(
    title: Option<string>, slug: Option<string>, folder: Option<Option<nat>>, mode: Option<Mode>,
    content: Option<Doc>, source: Option<string>, excerpt: Option<Excerpt>, visible: Option<bool>, draft: bool)

  // What the database answers while an operation checks its input.
  datatype Env = Env(folderExists: bool, slugFree: bool, expectedRevision: Option<nat>)

  datatype Error =
    | Archived | NotArchived | NotFound | NothingPublished
    | FolderMissing | InvalidContent | SlugTaken | Stale

  datatype Outcome = Done(state: State) | Refused(error: Error)

  function Project(content: Option<Doc>, source: Option<string>): Option<Body> {
    if content.Some? then Some(Body(Tiptap, content, None))
    else if source.Some? then Some(Body(Markdown, None, source))
    else None
  }

  function Applied(row: Row, input: UpdateInput): Row {
    var body := Project(input.content, input.source);
    Row(if input.title.Some? then input.title.value else row.title,
        if input.slug.Some? then input.slug.value else row.slug,
        if input.folder.Some? then input.folder.value else row.folder,
        if input.visible.Some? then input.visible.value else row.visible,
        if body.Some? then body.value else row.body,
        if input.excerpt.Some? then input.excerpt.value
        else if body.Some? then Derived(body.value) else row.excerpt)
  }

  function UpdateError(s: State, input: UpdateInput, env: Env): Option<Error> {
    if s.archived then Some(Archived)
    else if input.folder.Some? && input.folder.value.Some? && !env.folderExists then Some(FolderMissing)
    else if input.content.Some? && s.live.body.mode == Markdown && input.mode != Some(Tiptap) then Some(InvalidContent)
    else if input.source.Some? && s.live.body.mode == Tiptap && input.mode != Some(Markdown) then Some(InvalidContent)
    else if input.mode.Some? && input.content.None? && input.source.None? && input.mode.value != s.live.body.mode then
      Some(InvalidContent)
    else if input.slug.Some? && input.slug.value != s.live.slug && !env.slugFree then Some(SlugTaken)
    else if input.content.Some? && !input.content.value.valid then Some(InvalidContent)
    else if env.expectedRevision.Some? && env.expectedRevision.value != s.revision then Some(Stale)
    else None
  }

  predicate ContentAffecting(input: UpdateInput) {
    input.title.Some? || input.content.Some? || input.source.Some? || input.excerpt.Some? || input.mode.Some?
  }

  // The version rows after a save or autosave that took the live row from `was` to `row`.
  function SaveVersions(vs: Versions, was: Row, row: Row, draft: bool): Versions {
    var changed := Diff(was, row);
    if changed == {} && !(HasDraft(vs) && !draft) then vs
    else if HasDraft(vs) then Amend(vs, Snapshot(row, vs[DraftIndex(vs)].snapshot.changed + changed), draft)
    else Append(vs, Snapshot(row, changed), draft)
  }

  function Update(s: State, input: UpdateInput, env: Env): Outcome {
    var error := UpdateError(s, input, env);
    if error.Some? then Refused(error.value)
    else
      var row := Applied(s.live, input);
      Done(State(row, false, s.revision + (if ContentAffecting(input) then 1 else 0),
                 SaveVersions(s.versions, s.live, row, input.draft)))
  }

  // Drop the draft, if there is one and there is something to go back to.
  function Reverted(s: State): State {
    var latest := LatestPublished(s.versions);
    if HasDraft(s.versions) && latest.Some? then
      s.(live := s.versions[latest.value].snapshot.row, versions := DropDraft(s.versions))
    else s
  }

  function Move(s: State, folder: Option<nat>, env: Env): Outcome {
    if s.archived then Refused(Archived)
    else if folder.Some? && !env.folderExists then Refused(FolderMissing)
    else Done(s.(live := s.live.(folder := folder)))
  }

  // Unlike discardDraft, archiving drops a draft even with nothing published.
  function Archive(s: State): Outcome {
    if s.archived then Refused(Archived)
    else
      var r := if HasDraft(s.versions) && LatestPublished(s.versions).None?
               then s.(versions := DropDraft(s.versions)) else Reverted(s);
      Done(r.(archived := true))
  }

  function Restore(s: State, env: Env): Outcome {
    if !s.archived then Refused(NotArchived)
    else if !env.slugFree then Refused(SlugTaken)
    else Done(s.(archived := false))
  }

  function DiscardDraft(s: State): Outcome {
    if s.archived then Refused(Archived)
    else if HasDraft(s.versions) && LatestPublished(s.versions).None? then Refused(NothingPublished)
    else Done(Reverted(s))
  }

  function RestoreInput(target: Row): UpdateInput {
    UpdateInput(Some(target.title), Some(target.slug), Some(target.folder), Some(target.body.mode),
                if target.body.mode == Markdown then None else target.body.content,
                if target.body.mode != Markdown then None
                else Some(if target.body.source.Some? then target.body.source.value else ""),
                Some(target.excerpt), Some(target.visible), false)
  }

  // The draft goes in a transaction of its own, before the save that may refuse:
  // the state returned with an error is not always the state the call found.
  function RestoreVersion(s: State, number: nat, env: Env): (State, Option<Error>) {
    var target := FindPublished(s.versions, number);
    if s.archived then (s, Some(Archived))
    else if target.None? then (s, Some(NotFound))
    else
      var reverted := Reverted(s);
      match Update(reverted, RestoreInput(s.versions[target.value].snapshot.row), env.(expectedRevision := None))
      case Done(t) => (t, None)
      case Refused(e) => (reverted, Some(e))
  }

  // A committed integration write of a bound article: the row becomes `row`, and
  // a changed one is published at the next number without a look at the draft.
  function IntegrationChanged(s: State, row: Row): bool {
    Diff(s.live, row) - {Content} != {}
  }

  function IntegrationWrite(s: State, row: Row): State {
    if !IntegrationChanged(s, row) && !s.archived then s
    else
      State(row, false, s.revision + 1,
            if !IntegrationChanged(s, row) then s.versions
            else Append(s.versions, Snapshot(row, Diff(s.live, row)), false))
  }

  function Create(row: Row): State {
    State(row, false, 0, [Version(1, false, Snapshot(row, VERSIONED_FIELDS))])
  }

  datatype Op =
    | OpUpdate(input: UpdateInput, env: Env)
    | OpMove(folder: Option<nat>, env: Env)
    | OpArchive
    | OpRestore(env: Env)
    | OpDiscardDraft
    | OpRestoreVersion(number: nat, env: Env)

  function OrSame(s: State, o: Outcome): State { if o.Done? then o.state else s }

  // A refused operation leaves the article as it was, except for RestoreVersion.
  function Step(s: State, op: Op): State {
    match op
    case OpUpdate(input, env) => OrSame(s, Update(s, input, env))
    case OpMove(folder, env) => OrSame(s, Move(s, folder, env))
    case OpArchive => OrSame(s, Archive(s))
    case OpRestore(env) => OrSame(s, Restore(s, env))
    case OpDiscardDraft => OrSame(s, DiscardDraft(s))
    case OpRestoreVersion(number, env) => RestoreVersion(s, number, env).0
  }

  function Run(s: State, ops: seq<Op>): State {
    if ops == [] then s else Step(Run(s, ops[..|ops| - 1]), ops[|ops| - 1])
  }

  // --------------------------------------------------------------------
  // The invariant of every run of people's operations
  // --------------------------------------------------------------------

  // The row names everything in which it differs from the one before it (a move
  // changes the folder without being recorded).
  predicate Records(was: Row, next: Snapshot) { Diff(was, next.row) <= next.changed + {Folder} }

  ghost predicate ChangesRecorded(vs: Versions) {
    forall k | 0 < k < |vs| :: Records(vs[k - 1].snapshot.row, vs[k].snapshot)
  }

  ghost predicate AllWellFormed(vs: Versions) {
    forall k | 0 <= k < |vs| :: WellFormed(vs[k].snapshot.row.body)
  }

  ghost predicate Valid(s: State) {
    && Tidy(s.versions)
    && ChangesRecorded(s.versions)
    && AllWellFormed(s.versions) && WellFormed(s.live.body)
    && (s.archived ==> !Newest(s.versions).isDraft)
    // The newest row, draft or published, says what the live row says.
    && SameText(s.live, Newest(s.versions).snapshot.row)
  }
}
