// The optimistic guard of an update: an edit drafted against a known revision of the
// article (apps/api/src/articles/articles.service.ts), over runs of every kind of
// write of the article.
module ArticleGuard {
  import opened Basics
  import opened VersionLog
  import opened ArticleHistory
  import opened ArticleTheorems

  // --------------------------------------------------------------------
  // One update
  // --------------------------------------------------------------------

  // A body of this kind may be given: the article has it, or the input asks for it.
  predicate MayGive(given: Mode, live: Mode, asked: Option<Mode>) { given == live || asked == Some(given) }

  // What an update needs besides a revision that has not moved.
  predicate Acceptable(s: State, input: UpdateInput, env: Env) {
    var row, mode := Applied(s.live, input), s.live.body.mode;
    && !s.archived
    && (row.slug != s.live.slug ==> env.slugFree)
    && (input.folder.Some? && row.folder.Some? ==> env.folderExists)
    && (input.content.Some? ==> MayGive(Tiptap, mode, input.mode) && input.content.value.valid)
    && (input.source.Some? ==> MayGive(Markdown, mode, input.mode))
    && (input.mode.Some? && input.content.None? && input.source.None? ==> input.mode.value == mode)
  }

  predicate GuardHolds(s: State, env: Env) { env.expectedRevision.Some? ==> env.expectedRevision.value == s.revision }

  lemma UpdateIsAcceptedExactly(s: State, input: UpdateInput, env: Env)
    ensures Update(s, input, env).Done? <==> Acceptable(s, input, env) && GuardHolds(s, env)
    ensures Update(s, input, env) == Refused(Stale) <==> Acceptable(s, input, env) && !GuardHolds(s, env)
    ensures Update(s, input, env) == Refused(Archived) <==> s.archived
  {
  }

  // Every field the input gives is written, and every other one stays; the excerpt
  // follows a new body unless it is given itself.
  lemma UpdateWritesWhatIsGiven(s: State, input: UpdateInput, env: Env)
    requires Update(s, input, env).Done?
    ensures var was, now := s.live, Update(s, input, env).state.live;
            && input.title in {None, Some(now.title)} && (input.title.None? ==> now.title == was.title)
            && input.slug in {None, Some(now.slug)} && (input.slug.None? ==> now.slug == was.slug)
            && input.folder in {None, Some(now.folder)} && (input.folder.None? ==> now.folder == was.folder)
            && input.visible in {None, Some(now.visible)} && (input.visible.None? ==> now.visible == was.visible)
            && input.excerpt in {None, Some(now.excerpt)}
            && (input.content.Some? ==> now.body == Body(Tiptap, input.content, None))
            && (input.content.None? && input.source.Some? ==> now.body == Body(Markdown, None, input.source))
            && (input.content.None? && input.source.None? ==> now.body == was.body)
            && (input.excerpt.None? ==> now.excerpt == if input.content.None? && input.source.None?
                                                       then was.excerpt else Derived(now.body))
  {
  }

  // --------------------------------------------------------------------
  // What the revision counts
  // --------------------------------------------------------------------

  // The input gives a title, a body, an excerpt or an editor mode.
  predicate GivesContent(input: UpdateInput) {
    !(input.title.None? && input.content.None? && input.source.None? && input.excerpt.None? && input.mode.None?)
  }

  // The event takes effect as an edit of the article's content.
  predicate EditsContent(s: State, e: Event) {
    match e
    case Person(OpUpdate(input, env)) => GivesContent(input) && Update(s, input, env).Done?
    case Person(OpRestoreVersion(number, env)) => RestoreVersion(s, number, env).1.None?
    case Person(_) => false
    case Integration(row) => IntegrationWrite(s, row) != s
  }

  lemma RestoreVersionMovesRevision(s: State, number: nat, env: Env)
    ensures var (t, error) := RestoreVersion(s, number, env);
            t.revision == s.revision + if error.None? then 1 else 0
  {
  }

  lemma EventMovesRevisionExactly(s: State, e: Event)
    ensures StepEvent(s, e).revision == s.revision + if EditsContent(s, e) then 1 else 0
  {
    match e
    case Person(OpRestoreVersion(number, env)) => RestoreVersionMovesRevision(s, number, env);
    case Person(_) =>
    case Integration(row) =>
  }

  function Text(row: Row): (string, Body, Excerpt) { (row.title, row.body, row.excerpt) }

  // The text moves only by an edit the revision counts, or by a dropped draft.
  lemma TextMovesWithTheRevision(s: State, e: Event)
    requires Text(StepEvent(s, e).live) != Text(s.live)
    ensures EditsContent(s, e) || (HasDraft(s.versions) && StepEvent(s, e).live == Reverted(s).live)
  {
  }

  // How many events of a run took effect as edits.
  function Edits(s: State, events: seq<Event>): nat {
    if events == [] then 0
    else
      var n := |events| - 1;
      Edits(s, events[..n]) + if EditsContent(RunEvents(s, events[..n]), events[n]) then 1 else 0
  }

  lemma {:induction false} RevisionCountsEdits(s: State, events: seq<Event>)
    ensures RunEvents(s, events).revision == s.revision + Edits(s, events)
  {
    if events != [] {
      var n := |events| - 1;
      RevisionCountsEdits(s, events[..n]);
      EventMovesRevisionExactly(RunEvents(s, events[..n]), events[n]);
    }
  }

  // --------------------------------------------------------------------
  // Guarded edits
  // --------------------------------------------------------------------

  ghost predicate EditTookEffectAt(s: State, events: seq<Event>, k: nat)
    requires k < |events|
  {
    EditsContent(RunEvents(s, events[..k]), events[k])
  }

  lemma {:induction false} NoEditsExactly(s: State, events: seq<Event>)
    ensures Edits(s, events) == 0 <==> forall k | 0 <= k < |events| :: !EditTookEffectAt(s, events, k)
  {
    if events != [] {
      var n := |events| - 1;
      var front := events[..n];
      NoEditsExactly(s, front);
      forall k | 0 <= k < n ensures EditTookEffectAt(s, front, k) <==> EditTookEffectAt(s, events, k) {
        assert front[..k] == events[..k];
      }
      assert Edits(s, events) == 0 <==> Edits(s, front) == 0 && !EditTookEffectAt(s, events, n);
    }
  }

  // An edit drafted against the article as it was before any run of other writes is
  // accepted exactly when none of them edited the content and nothing else stands in
  // its way.
  lemma GuardedEditIsAcceptedExactly(s: State, events: seq<Event>, input: UpdateInput, env: Env)
    requires env.expectedRevision == Some(s.revision)
    ensures Update(RunEvents(s, events), input, env).Done?
       <==> && Acceptable(RunEvents(s, events), input, env)
            && forall k | 0 <= k < |events| :: !EditTookEffectAt(s, events, k)
  {
    RevisionCountsEdits(s, events);
    NoEditsExactly(s, events);
    UpdateIsAcceptedExactly(RunEvents(s, events), input, env);
  }

  lemma {:induction false} RunInTwo(s: State, events: seq<Event>, i: nat)
    requires i <= |events|
    ensures RunEvents(s, events) == RunEvents(RunEvents(s, events[..i]), events[i..])
  {
    if i == |events| {
      assert events[..i] == events;
    } else {
      var n := |events| - 1;
      RunInTwo(s, events[..n], i);
      assert events[..n][..i] == events[..i] && events[..n][i..] == events[i..][..n - i];
    }
  }

  // Of two edits drafted against the same revision at most one takes effect, whatever
  // else is written before, between and after them.
  lemma OneOfTwoGuardedEdits(s: State, events: seq<Event>, i: nat, j: nat, revision: nat)
    requires i < j < |events|
    requires forall k | k == i || k == j ::
      events[k].Person? && events[k].op.OpUpdate? && events[k].op.env.expectedRevision == Some(revision)
    ensures !(EditTookEffectAt(s, events, i) && EditTookEffectAt(s, events, j))
  {
    if EditTookEffectAt(s, events, i) {
      var before, upto := RunEvents(s, events[..i]), events[..j];
      EventMovesRevisionExactly(before, events[i]);
      RunInTwo(s, upto, i + 1);
      assert upto[..i + 1][..i] == events[..i] && upto[..i + 1][i] == events[i];
      RevisionCountsEdits(RunEvents(s, upto[..i + 1]), upto[i + 1..]);
      assert before.revision == revision;
    }
  }

  // A dropped draft is not an edit the revision counts: an edit drafted against the
  // draft's text is applied to the published one.
  lemma GuardMissesADiscard(s: State, input: UpdateInput, env: Env)
    requires s.live.title == "Draft" && !s.archived && HasDraft(s.versions)
    requires LatestPublished(s.versions) == Some(0) && s.versions[0].snapshot.row.title == "Published"
    requires input == UpdateInput(None, None, None, None, None, None, Some(Given("Summary of the draft")), None, false)
    requires env.expectedRevision == Some(s.revision)
    ensures var after := Step(s, OpDiscardDraft);
            && after.live.title == "Published" && Update(after, input, env).Done?
            && Update(after, input, env).state.live == after.live.(excerpt := Given("Summary of the draft"))
  {
  }
}
