// What every run of operations on one article keeps, undoes and never touches.
module ArticleTheorems {
  import opened Basics
  import opened VersionLog
  import opened ArticleHistory

  // --------------------------------------------------------------------
  // The invariant
  // --------------------------------------------------------------------

  lemma AppliedIsWellFormed(s: State, input: UpdateInput, env: Env)
    requires WellFormed(s.live.body) && Update(s, input, env).Done?
    ensures WellFormed(Applied(s.live, input).body)
  {
  }

  lemma DiffChains(a: Row, b: Row, c: Row)
    ensures Diff(a, c) <= Diff(a, b) + Diff(b, c)
    ensures Diff(a, b) == Diff(b, a) && Diff(a, a) == {}
  {
  }

  lemma NamedExactly(f: Versioned, a: Row, b: Row)
    ensures f in Diff(a, b) <==> Differs(f, a, b)
  {
    assert f in VERSIONED_FIELDS;
  }

  // A field is named exactly when it differs.
  lemma DiffNamesExactly(a: Row, b: Row)
    ensures (Title in Diff(a, b) <==> a.title != b.title) && (Slug in Diff(a, b) <==> a.slug != b.slug)
    ensures (Folder in Diff(a, b) <==> a.folder != b.folder) && (Visible in Diff(a, b) <==> a.visible != b.visible)
    ensures (EditorMode in Diff(a, b) <==> a.body.mode != b.body.mode)
         && (Content in Diff(a, b) <==> a.body.content != b.body.content)
         && (Source in Diff(a, b) <==> a.body.source != b.body.source)
  {
    NamedExactly(Title, a, b);
    NamedExactly(Slug, a, b);
    NamedExactly(Folder, a, b);
    NamedExactly(Visible, a, b);
    NamedExactly(EditorMode, a, b);
    NamedExactly(Content, a, b);
    NamedExactly(Source, a, b);
  }

  // Nothing is named for rows that are the same but for the excerpt.
  lemma NothingIsNamedExactly(a: Row, b: Row)
    ensures Diff(a, b) == {} <==> a.(excerpt := b.excerpt) == b
  {
    DiffNamesExactly(a, b);
    if a.(excerpt := b.excerpt) == b {
      forall f: Versioned ensures f !in Diff(a, b) { NamedExactly(f, a, b); }
    }
  }

  // A save or autosave on a valid history, in closed form.
  lemma SaveVersionsGives(s: State, row: Row, draft: bool)
    requires Valid(s) && WellFormed(row.body)
    ensures var vs, n := s.versions, |s.versions|;
            var changed := Diff(s.live, row);
            var after := SaveVersions(vs, s.live, row, draft);
            if changed == {} && !(Newest(vs).isDraft && !draft) then after == vs
            else if Newest(vs).isDraft
            then after == vs[..n - 1] + [Version(n, draft, Snapshot(row, Newest(vs).snapshot.changed + changed))]
            else after == vs + [Version(n + 1, draft, Snapshot(row, changed))]
    ensures Tidy(SaveVersions(s.versions, s.live, row, draft))
  {
    TidyDraft(s.versions);
    if HasDraft(s.versions) {
      TidyAmend(s.versions, Snapshot(row, Newest(s.versions).snapshot.changed + Diff(s.live, row)), draft);
    } else {
      TidyAppend(s.versions, Snapshot(row, Diff(s.live, row)), draft);
    }
  }

  lemma SaveKeepsValid(s: State, row: Row, draft: bool, revision: nat)
    requires Valid(s) && WellFormed(row.body)
    ensures Valid(State(row, false, revision, SaveVersions(s.versions, s.live, row, draft)))
  {
    SaveVersionsGives(s, row, draft);
    var vs, n := s.versions, |s.versions|;
    var after := SaveVersions(vs, s.live, row, draft);
    var newest := Newest(vs).snapshot;
    DiffChains(row, s.live, newest.row);
    DiffChains(s.live, row, row);
    if Newest(vs).isDraft {
      DiffChains(vs[n - 2].snapshot.row, newest.row, s.live);
      DiffChains(vs[n - 2].snapshot.row, s.live, row);
      DiffChains(newest.row, s.live, row);
      assert Records(vs[n - 2].snapshot.row, newest);
    } else {
      DiffChains(newest.row, s.live, row);
    }
  }

  lemma UpdateKeepsValid(s: State, input: UpdateInput, env: Env)
    requires Valid(s) && Update(s, input, env).Done?
    ensures Valid(Update(s, input, env).state)
  {
    AppliedIsWellFormed(s, input, env);
    SaveKeepsValid(s, Applied(s.live, input), input.draft, Update(s, input, env).state.revision);
  }

  lemma RevertedGives(s: State)
    requires Tidy(s.versions)
    ensures Reverted(s) == if Newest(s.versions).isDraft
                           then s.(live := s.versions[|s.versions| - 2].snapshot.row,
                                   versions := s.versions[..|s.versions| - 1])
                           else s
    ensures Tidy(Reverted(s).versions) && !Newest(Reverted(s).versions).isDraft
  {
    TidyDraft(s.versions);
    TidyLatest(s.versions);
    if HasDraft(s.versions) { TidyDropDraft(s.versions); }
  }

  lemma RevertedKeepsValid(s: State)
    requires Valid(s)
    ensures Valid(Reverted(s))
  {
    RevertedGives(s);
    if Newest(s.versions).isDraft {
      var row := s.versions[|s.versions| - 2].snapshot.row;
      DiffChains(row, row, row);
    }
  }

  lemma RestoreVersionKeepsValid(s: State, number: nat, env: Env)
    requires Valid(s)
    ensures Valid(RestoreVersion(s, number, env).0)
  {
    var target := FindPublished(s.versions, number);
    if !s.archived && target.Some? {
      RevertedKeepsValid(s);
      var input := RestoreInput(s.versions[target.value].snapshot.row);
      if Update(Reverted(s), input, env.(expectedRevision := None)).Done? {
        UpdateKeepsValid(Reverted(s), input, env.(expectedRevision := None));
      }
    }
  }

  lemma MovedKeepsValid(s: State, folder: Option<nat>)
    requires Valid(s)
    ensures Valid(s.(live := s.live.(folder := folder)))
  {
    DiffChains(s.live.(folder := folder), s.live, Newest(s.versions).snapshot.row);
  }

  lemma StepKeepsValid(s: State, op: Op)
    requires Valid(s)
    ensures Valid(Step(s, op))
  {
    match op
    case OpUpdate(input, env) => if Update(s, input, env).Done? { UpdateKeepsValid(s, input, env); }
    case OpMove(folder, env) => MovedKeepsValid(s, folder);
    case OpArchive => TidyLatest(s.versions); RevertedGives(s); RevertedKeepsValid(s);
    case OpRestore(env) =>
    case OpDiscardDraft => RevertedKeepsValid(s);
    case OpRestoreVersion(number, env) => RestoreVersionKeepsValid(s, number, env);
  }

  lemma {:induction false} RunKeepsValid(row: Row, ops: seq<Op>)
    requires WellFormed(row.body)
    ensures Valid(Run(Create(row), ops))
  {
    if ops == [] {
      DiffChains(row, row, row);
    } else {
      RunKeepsValid(row, ops[..|ops| - 1]);
      StepKeepsValid(Run(Create(row), ops[..|ops| - 1]), ops[|ops| - 1]);
    }
  }

  // Over every run from creation: the version numbers are exactly 1..n, only
  // number n can be a draft, something is published, an archived article has no
  // draft, and the live row says what the draft says, or without one what the
  // latest published version says (its folder apart). Every row names what it changed.
  lemma EveryRunIsValid(row: Row, ops: seq<Op>)
    requires WellFormed(row.body)
    ensures var s := Run(Create(row), ops);
            var vs, n := s.versions, |s.versions|;
            && Valid(s)
            && n > 0 && (forall k | 0 <= k < n :: vs[k].number == k + 1 && (vs[k].isDraft ==> k == n - 1))
            && LatestPublished(vs).Some?
            && (s.archived ==> !HasDraft(vs))
            && SameText(s.live, vs[if HasDraft(vs) then DraftIndex(vs) else LatestPublished(vs).value].snapshot.row)
            && (forall k | 0 < k < n ::
                  Diff(vs[k - 1].snapshot.row, vs[k].snapshot.row) <= vs[k].snapshot.changed + {Folder})
  {
    var s := Run(Create(row), ops);
    RunKeepsValid(row, ops);
    TidyDraft(s.versions);
    TidyLatest(s.versions);
    ChangesAreNamed(s.versions);
  }

  lemma ChangesAreNamed(vs: seq<Version<Snapshot>>)
    requires ChangesRecorded(vs)
    ensures forall k | 0 < k < |vs| ::
              Diff(vs[k - 1].snapshot.row, vs[k].snapshot.row) <= vs[k].snapshot.changed + {Folder}
  {
    forall k | 0 < k < |vs|
      ensures Diff(vs[k - 1].snapshot.row, vs[k].snapshot.row) <= vs[k].snapshot.changed + {Folder}
    {
      assert Records(vs[k - 1].snapshot.row, vs[k].snapshot);
    }
  }

  // --------------------------------------------------------------------
  // Append-only history
  // --------------------------------------------------------------------

  lemma UpdateAppends(s: State, input: UpdateInput, env: Env)
    requires Valid(s) && Update(s, input, env).Done?
    ensures var t := Update(s, input, env).state;
            && Published(s.versions) <= Published(t.versions) && |Published(t.versions)| <= |Published(s.versions)| + 1
            && (input.draft ==> Published(t.versions) == Published(s.versions))
            && (!input.draft ==> !Newest(t.versions).isDraft)
  {
    var t := Update(s, input, env).state;
    AppliedIsWellFormed(s, input, env);
    SaveVersionsGives(s, Applied(s.live, input), input.draft);
    TidyPublished(s.versions);
    TidyPublished(t.versions);
  }

  // The row a save or autosave leaves on top names exactly what it changed, and keeps
  // what the draft under it had named.
  lemma NewestNamesWhatChanged(s: State, input: UpdateInput, env: Env)
    requires Valid(s) && Update(s, input, env).Done?
    ensures var t, changed := Update(s, input, env).state, Diff(s.live, Applied(s.live, input));
            && (changed == {} && (input.draft || !Newest(s.versions).isDraft) ==> t.versions == s.versions)
            && (changed != {} ==>
                  && Newest(t.versions).snapshot.row == t.live && Newest(t.versions).isDraft == input.draft
                  && Newest(t.versions).snapshot.changed
                     == changed + if Newest(s.versions).isDraft then Newest(s.versions).snapshot.changed else {})
  {
    AppliedIsWellFormed(s, input, env);
    SaveVersionsGives(s, Applied(s.live, input), input.draft);
  }

  lemma RevertedKeepsPublished(s: State)
    requires Valid(s)
    ensures Published(Reverted(s).versions) == Published(s.versions)
  {
    RevertedGives(s);
    TidyPublished(s.versions);
    TidyPublished(Reverted(s).versions);
  }

  lemma RestoreVersionAppends(s: State, number: nat, env: Env)
    requires Valid(s)
    ensures var t := RestoreVersion(s, number, env).0;
            Published(s.versions) <= Published(t.versions) && |Published(t.versions)| <= |Published(s.versions)| + 1
  {
    var target := FindPublished(s.versions, number);
    if !s.archived && target.Some? {
      RevertedKeepsValid(s);
      RevertedKeepsPublished(s);
      var input := RestoreInput(s.versions[target.value].snapshot.row);
      if Update(Reverted(s), input, env.(expectedRevision := None)).Done? {
        UpdateAppends(Reverted(s), input, env.(expectedRevision := None));
      }
    }
  }

  // No operation rewrites or drops a published version; at most one is added.
  lemma StepAppendsOnly(s: State, op: Op)
    requires Valid(s)
    ensures Published(s.versions) <= Published(Step(s, op).versions)
    ensures |Published(Step(s, op).versions)| <= |Published(s.versions)| + 1
  {
    match op
    case OpUpdate(input, env) => if Update(s, input, env).Done? { UpdateAppends(s, input, env); }
    case OpMove(folder, env) =>
    case OpArchive => TidyLatest(s.versions); RevertedKeepsPublished(s);
    case OpRestore(env) =>
    case OpDiscardDraft => RevertedKeepsPublished(s);
    case OpRestoreVersion(number, env) => RestoreVersionAppends(s, number, env);
  }

  lemma {:induction false} RunAppendsOnly(s: State, ops: seq<Op>)
    requires Valid(s)
    ensures Valid(Run(s, ops)) && Published(s.versions) <= Published(Run(s, ops).versions)
  {
    if ops != [] {
      var t := Run(s, ops[..|ops| - 1]);
      RunAppendsOnly(s, ops[..|ops| - 1]);
      StepKeepsValid(t, ops[|ops| - 1]);
      StepAppendsOnly(t, ops[|ops| - 1]);
    }
  }

  // --------------------------------------------------------------------
  // Undoing autosaves
  // --------------------------------------------------------------------

  ghost predicate Autosaves(ops: seq<Op>) {
    forall op | op in ops :: op.OpUpdate? && op.input.draft
  }

  // One draft at most on top of the history `s` had.
  ghost predicate IsDraftOn(s: State, t: State) {
    && Valid(t) && !t.archived
    && (if Newest(t.versions).isDraft then t.versions[..|t.versions| - 1] == s.versions
        else t.versions == s.versions && Diff(s.live, t.live) == {})
  }

  lemma AutosaveKeepsDraft(s: State, t: State, input: UpdateInput, env: Env)
    requires Valid(s) && !HasDraft(s.versions) && IsDraftOn(s, t) && input.draft && Update(t, input, env).Done?
    ensures IsDraftOn(s, Update(t, input, env).state)
  {
    TidyDraft(s.versions);
    UpdateKeepsValid(t, input, env);
    AppliedIsWellFormed(t, input, env);
    SaveVersionsGives(t, Applied(t.live, input), true);
    DiffChains(s.live, t.live, Applied(t.live, input));
  }

  // Autosaves only ever grow one draft on top of the history they started from.
  lemma {:induction false} AutosavesOnlyDraft(s: State, ops: seq<Op>)
    requires Valid(s) && !s.archived && !HasDraft(s.versions) && Autosaves(ops)
    ensures IsDraftOn(s, Run(s, ops))
  {
    if ops == [] {
      TidyDraft(s.versions);
      DiffChains(s.live, s.live, s.live);
    } else {
      var n := |ops| - 1;
      assert ops[n] in ops && forall op | op in ops[..n] :: op in ops;
      AutosavesOnlyDraft(s, ops[..n]);
      var t := Run(s, ops[..n]);
      var OpUpdate(input, env) := ops[n];
      if Update(t, input, env).Done? { AutosaveKeepsDraft(s, t, input, env); }
    }
  }

  // Any number of autosaves followed by discardDraft, or by archive and restore,
  // gives back the history and the live text. The folder comes back too unless a
  // draft was made after a move that no version records.
  lemma AutosavesAreUndoable(s: State, ops: seq<Op>, env: Env)
    requires Valid(s) && !s.archived && !HasDraft(s.versions) && Autosaves(ops) && env.slugFree
    ensures var t := Run(s, ops);
            var discarded := DiscardDraft(t);
            var archived := Archive(t);
            && discarded.Done? && archived.Done? && Restore(archived.state, env).Done?
            && Restore(archived.state, env).state == discarded.state
            && discarded.state.versions == s.versions
            && SameText(discarded.state.live, s.live)
            && (discarded.state.live.folder == s.live.folder
                <==> !HasDraft(t.versions) || s.live.folder == Newest(s.versions).snapshot.row.folder)
  {
    var t := Run(s, ops);
    AutosavesOnlyDraft(s, ops);
    TidyDraft(t.versions);
    TidyLatest(t.versions);
    RevertedGives(t);
    if HasDraft(t.versions) {
      DiffChains(Reverted(t).live, s.live, s.live);
    } else {
      DiffChains(t.live, s.live, s.live);
      assert !Differs(Folder, s.live, t.live) by {
        assert Folder in VERSIONED_FIELDS && Folder !in Diff(s.live, t.live);
      }
    }
  }

  // A move, one autosave and a discard put the article back in its old folder.
  lemma DiscardLosesAMove(row: Row, folder: Option<nat>, env: Env, autosave: UpdateInput)
    requires WellFormed(row.body) && folder != row.folder && env.folderExists && env.expectedRevision.None?
    requires autosave == UpdateInput(Some(row.title + "!"), None, None, None, None, None, None, None, true)
    ensures var moved := Step(Create(row), OpMove(folder, env));
            var saved := Step(moved, OpUpdate(autosave, env));
            moved.live.folder == folder && Step(saved, OpDiscardDraft).live.folder == row.folder
  {
    DiffChains(row, row, row);
    var moved := Create(row).(live := row.(folder := folder));
    MovedKeepsValid(Create(row), folder);
    var after := Applied(moved.live, autosave);
    assert Title in Diff(moved.live, after) by { assert Differs(Title, moved.live, after); }
    AppliedIsWellFormed(moved, autosave, env);
    SaveVersionsGives(moved, after, true);
    var saved := Step(moved, OpUpdate(autosave, env));
    assert saved.versions == moved.versions + [Version(2, true, Snapshot(after, Diff(moved.live, after)))];
    TidyLatest(saved.versions);
    RevertedGives(saved);
  }

  // --------------------------------------------------------------------
  // Going back to a version
  // --------------------------------------------------------------------

  // It succeeds exactly when the target's folder still exists and its slug is
  // free (or already the article's); then the live row IS the target, on top of
  // the whole published history, with a new version only if anything differs.
  // When it refuses after the target was found, the draft is gone all the same.
  lemma RestoreVersionGivesTheTarget(s: State, number: nat, env: Env)
    requires Valid(s) && !s.archived && FindPublished(s.versions, number).Some?
    ensures var target := s.versions[FindPublished(s.versions, number).value].snapshot.row;
            var (t, error) := RestoreVersion(s, number, env);
            && (error.None? <==> ((target.folder.None? || env.folderExists)
                                  && (target.slug == Reverted(s).live.slug || env.slugFree)))
            && (error.None? ==>
                  && t.live == target && !HasDraft(t.versions)
                  && Published(t.versions) == Published(s.versions)
                       + (if Diff(Reverted(s).live, target) == {} then []
                          else [Version(|Published(s.versions)| + 1, false,
                                        Snapshot(target, Diff(Reverted(s).live, target)))]))
            && (error.Some? ==> t == Reverted(s) && !HasDraft(t.versions))
  {
    var target := s.versions[FindPublished(s.versions, number).value].snapshot.row;
    var r := Reverted(s);
    RevertedGives(s);
    RevertedKeepsValid(s);
    RevertedKeepsPublished(s);
    assert WellFormed(target.body);
    RestoreVersionUnfolds(s, number, env);
    RepublishGives(r, target);
    TidyDraft(r.versions);
  }

  lemma RestoreVersionUnfolds(s: State, number: nat, env: Env)
    requires !s.archived && !Reverted(s).archived && FindPublished(s.versions, number).Some?
    requires WellFormed(s.versions[FindPublished(s.versions, number).value].snapshot.row.body)
    ensures var target := s.versions[FindPublished(s.versions, number).value].snapshot.row;
            var (t, error) := RestoreVersion(s, number, env);
            var r := Reverted(s);
            if (target.folder.None? || env.folderExists) && (target.slug == r.live.slug || env.slugFree)
            then error.None? && t.live == target && t.versions == SaveVersions(r.versions, r.live, target, false)
            else error.Some? && t == r
  {
    RestoreInputGivesTarget(Reverted(s), s.versions[FindPublished(s.versions, number).value].snapshot.row, env);
  }

  lemma RepublishGives(r: State, target: Row)
    requires Valid(r) && !Newest(r.versions).isDraft && WellFormed(target.body)
    ensures var after := SaveVersions(r.versions, r.live, target, false);
            && !HasDraft(after)
            && Published(after) == Published(r.versions)
                 + (if Diff(r.live, target) == {} then []
                    else [Version(|Published(r.versions)| + 1, false, Snapshot(target, Diff(r.live, target)))])
  {
    var after := SaveVersions(r.versions, r.live, target, false);
    SaveVersionsGives(r, target, false);
    TidyPublished(r.versions);
    TidyPublished(after);
    TidyDraft(after);
  }

  lemma RestoreInputGivesTarget(r: State, target: Row, env: Env)
    requires !r.archived && WellFormed(target.body)
    ensures Applied(r.live, RestoreInput(target)) == target
    ensures UpdateError(r, RestoreInput(target), env.(expectedRevision := None)).None?
      <==> (target.folder.None? || env.folderExists) && (target.slug == r.live.slug || env.slugFree)
  {
  }

  // --------------------------------------------------------------------
  // Integration writes next to people's
  // --------------------------------------------------------------------

  datatype Event = Person(op: Op) | Integration(row: Row)

  function StepEvent(s: State, e: Event): State {
    match e
    case Person(op) => Step(s, op)
    case Integration(row) => IntegrationWrite(s, row)
  }

  function RunEvents(s: State, events: seq<Event>): State {
    if events == [] then s else StepEvent(RunEvents(s, events[..|events| - 1]), events[|events| - 1])
  }

  lemma SaveKeepsSound(vs: Versions, was: Row, row: Row, draft: bool)
    requires Sound(vs)
    ensures Sound(SaveVersions(vs, was, row, draft)) && KeepsPublished(vs, SaveVersions(vs, was, row, draft))
  {
    var changed := Diff(was, row);
    if HasDraft(vs) {
      SoundAmend(vs, Snapshot(row, vs[DraftIndex(vs)].snapshot.changed + changed), draft);
    } else {
      SoundAppend(vs, Snapshot(row, changed), draft);
    }
  }

  lemma RevertedKeepsSound(s: State)
    requires Sound(s.versions)
    ensures Sound(Reverted(s).versions) && KeepsPublished(s.versions, Reverted(s).versions)
  {
    if HasDraft(s.versions) { SoundDropDraft(s.versions); }
  }

  lemma UpdateKeepsSound(s: State, input: UpdateInput, env: Env)
    requires Sound(s.versions)
    ensures Sound(OrSame(s, Update(s, input, env)).versions)
         && KeepsPublished(s.versions, OrSame(s, Update(s, input, env)).versions)
  {
    SaveKeepsSound(s.versions, s.live, Applied(s.live, input), input.draft);
  }

  lemma RestoreVersionKeepsSound(s: State, number: nat, env: Env)
    requires Sound(s.versions)
    ensures Sound(RestoreVersion(s, number, env).0.versions)
         && KeepsPublished(s.versions, RestoreVersion(s, number, env).0.versions)
  {
    var target := FindPublished(s.versions, number);
    if target.Some? {
      RevertedKeepsSound(s);
      var input := RestoreInput(s.versions[target.value].snapshot.row);
      UpdateKeepsSound(Reverted(s), input, env.(expectedRevision := None));
    }
  }

  lemma StepKeepsSound(s: State, op: Op)
    requires Sound(s.versions)
    ensures Sound(Step(s, op).versions) && KeepsPublished(s.versions, Step(s, op).versions)
  {
    match op
    case OpUpdate(input, env) => UpdateKeepsSound(s, input, env);
    case OpRestoreVersion(number, env) => RestoreVersionKeepsSound(s, number, env);
    case OpArchive => RevertedKeepsSound(s);
    case OpDiscardDraft => RevertedKeepsSound(s);
    case _ =>
  }

  lemma EventKeepsSound(s: State, e: Event)
    requires Sound(s.versions)
    ensures Sound(StepEvent(s, e).versions) && KeepsPublished(s.versions, StepEvent(s, e).versions)
  {
    match e
    case Person(op) => StepKeepsSound(s, op);
    case Integration(row) => SoundAppend(s.versions, Snapshot(row, Diff(s.live, row)), false);
  }

  // An integration write that changes more than the projected content publishes exactly
  // one version, at the next number, naming exactly what it changed; any other adds none,
  // and only brings an archived article back.
  lemma IntegrationWriteAddsAVersionExactly(s: State, row: Row)
    ensures var t, same := IntegrationWrite(s, row),
                           row.(excerpt := s.live.excerpt, body := row.body.(content := s.live.body.content)) == s.live;
            && (t.versions == s.versions <==> same)
            && (!same ==> t.versions == s.versions + [Version(MaxNumber(s.versions) + 1, false,
                                                              Snapshot(row, Diff(s.live, row)))])
            && (same && !s.archived ==> t == s)
            && (!same || s.archived ==> t.live == row && !t.archived)
  {
    DiffNamesExactly(s.live, row);
    if !IntegrationChanged(s, row) {
      assert forall f | f in Diff(s.live, row) && f != Content :: f in Diff(s.live, row) - {Content};
    } else {
      var f :| f in Diff(s.live, row) - {Content};
      NamedExactly(f, s.live, row);
    }
  }

  // Archiving leaves no draft behind, with or without a published version.
  lemma ArchivedHasNoDraft(s: State)
    requires !s.archived && forall i, j | 0 <= i < j < |s.versions| :: !(s.versions[i].isDraft && s.versions[j].isDraft)
    ensures Archive(s).Done? && Archive(s).state.archived && !HasDraft(Archive(s).state.versions)
  {
    if HasDraft(s.versions) {
      var k := DraftIndex(s.versions);
      WithoutAt(s.versions, k, DropDraft(s.versions));
    }
  }

  // No event of any kind changes or removes a published version, repeats a
  // number, or leaves two drafts.
  lemma {:induction false} MixedRunsKeepHistory(s: State, events: seq<Event>)
    requires Sound(s.versions)
    ensures Sound(RunEvents(s, events).versions) && KeepsPublished(s.versions, RunEvents(s, events).versions)
  {
    if events != [] {
      var m := RunEvents(s, events[..|events| - 1]);
      MixedRunsKeepHistory(s, events[..|events| - 1]);
      EventKeepsSound(m, events[|events| - 1]);
    }
  }

  // A changed integration write keeps the people's invariant exactly when no
  // draft is open: next to one, the draft is no longer the newest row.
  lemma IntegrationKeepsValidExactlyWithoutDraft(s: State, row: Row)
    requires Valid(s) && WellFormed(row.body) && IntegrationChanged(s, row)
    ensures Valid(IntegrationWrite(s, row)) <==> !HasDraft(s.versions)
  {
    TidyDraft(s.versions);
    var vs, n := s.versions, |s.versions|;
    var t := IntegrationWrite(s, row);
    if HasDraft(vs) {
      assert t.versions[n - 1].isDraft;
    } else {
      var newest := vs[n - 1].snapshot.row;
      DiffChains(newest, s.live, row);
      DiffChains(s.live, newest, row);
      DiffChains(row, row, row);
      TidyAppend(vs, Snapshot(row, Diff(s.live, row)), false);
      assert Records(newest, Snapshot(row, Diff(s.live, row)));
    }
  }

  lemma WithIntegrationVersion(s: State, row: Row, w: seq<Version<Snapshot>>)
    requires Valid(s) && HasDraft(s.versions) && IntegrationChanged(s, row) && w == IntegrationWrite(s, row).versions
    ensures var n := |s.versions|;
            && |w| == n + 1 && n >= 2 && HasDraft(w) && DraftIndex(w) == n - 1
            && w[n].snapshot.row == row && !w[n].isDraft
            && (forall k | 0 <= k <= n :: w[k].number == k + 1)
            && (forall k | 0 <= k < n - 1 :: !w[k].isDraft)
  {
    TidyDraft(s.versions);
    assert w[|s.versions| - 1].isDraft && !w[|s.versions|].isDraft;
  }

  lemma LastIsLatest<P>(vs: seq<Version<P>>, n: nat)
    requires |vs| == n + 1 && forall k | 0 <= k <= n :: !vs[k].isDraft && vs[k].number == k + 1
    ensures LatestPublished(vs) == Some(n) && !HasDraft(vs)
  {
    var l := LatestPublished(vs).value;
    assert vs[l].number == l + 1 && vs[n].number == n + 1;
  }

  // Publishing the draft below the newest row.
  lemma PromotedBelow(w: Versions, was: Row, row: Row, n: nat)
    requires |w| == n + 1 && HasDraft(w) && DraftIndex(w) < n && !w[n].isDraft
    requires forall k | 0 <= k <= n :: w[k].number == k + 1
    requires forall k | 0 <= k <= n && k != DraftIndex(w) :: !w[k].isDraft
    ensures var t := SaveVersions(w, was, row, false);
            |t| == n + 1 && t[n] == w[n] && LatestPublished(t) == Some(n) && !HasDraft(t)
  {
    LastIsLatest(SaveVersions(w, was, row, false), n);
  }

  // Saving that draft afterwards publishes it BELOW the integration's version,
  // so the latest published version is not what the article says.
  lemma SavingPastAnIntegrationWrite(s: State, row: Row, input: UpdateInput, env: Env)
    requires Valid(s) && HasDraft(s.versions) && IntegrationChanged(s, row) && !input.draft
    requires Update(IntegrationWrite(s, row), input, env).Done?
    ensures var t := Update(IntegrationWrite(s, row), input, env).state;
            && !HasDraft(t.versions) && t.live == Applied(row, input)
            && LatestPublished(t.versions).Some? && t.versions[LatestPublished(t.versions).value].snapshot.row == row
  {
    var n, w := |s.versions|, IntegrationWrite(s, row).versions;
    WithIntegrationVersion(s, row, w);
    PromotedBelow(w, row, Applied(row, input), n);
  }
}
