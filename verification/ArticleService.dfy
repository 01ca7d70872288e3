// The operations as the service performs them on the article row and its
// version rows, statement by statement inside one transaction
// (apps/api/src/articles/articles.service.ts). `existing` is read outside the
// transaction in the source; here each operation is atomic.
module ArticleService {
  import opened Basics
  import opened VersionLog
  import opened ArticleHistory

  class Article {
    var live: Row
    var archived: bool
    var revision: nat
    var versions: Versions
    // The row's write stamp: every update of the article row moves it.
    var updatedAt: nat

    ghost function Current(): State
      reads this
    {
      State(live, archived, revision, versions)
    }

    constructor (row: Row)
      ensures Current() == Create(row)
    {
      live, archived, revision, updatedAt := row, false, 0, 0;
      versions := [Version(1, false, Snapshot(row, VERSIONED_FIELDS))];
    }

    // A refused update changes nothing; otherwise the row and the version rows
    // move together. A save with nothing changed still writes the row.
    method Update(input: UpdateInput, env: Env) returns (error: Option<Error>)
      modifies this
      ensures error == UpdateError(old(Current()), input, env)
      ensures Current() == Step(old(Current()), OpUpdate(input, env))
      ensures updatedAt == old(updatedAt) + (if error.None? then 1 else 0)
    {
      var existing := live;
      error := UpdateError(State(live, archived, revision, versions), input, env);
      if error.Some? { return; }
      live := RowData(existing, input);
      if ContentAffecting(input) { revision := revision + 1; }
      updatedAt := updatedAt + 1;
      WriteVersion(existing, input.draft);
    }

    // The columns of an update, field by field of the input.
    static method RowData(existing: Row, input: UpdateInput) returns (data: Row)
      ensures data == Applied(existing, input)
    {
      data := existing;
      if input.title.Some? { data := data.(title := input.title.value); }
      if input.slug.Some? { data := data.(slug := input.slug.value); }
      if input.folder.Some? { data := data.(folder := input.folder.value); }
      var body := Project(input.content, input.source);
      if body.Some? { data := data.(body := body.value, excerpt := Derived(body.value)); }
      if input.excerpt.Some? { data := data.(excerpt := input.excerpt.value); }
      if input.visible.Some? { data := data.(visible := input.visible.value); }
    }

    // Nothing for a save without changes and without a draft to promote;
    // otherwise the rolling draft is rewritten, promoted or started.
    method WriteVersion(existing: Row, draft: bool)
      modifies this`versions
      ensures versions == SaveVersions(old(versions), existing, live, draft)
    {
      var changedFields := Diff(existing, live);
      var existingDraft := HasDraft(versions);
      if changedFields == {} && !(existingDraft && !draft) { return; }
      if existingDraft {
        var k := DraftIndex(versions);
        var snapshot := Snapshot(live, versions[k].snapshot.changed + changedFields);
        versions := versions[k := Version(versions[k].number, draft, snapshot)];
      } else {
        versions := versions + [Version(MaxNumber(versions) + 1, draft, Snapshot(live, changedFields))];
      }
    }

    method Move(folder: Option<nat>, env: Env) returns (error: Option<Error>)
      modifies this
      ensures error.None? <==> !old(archived) && (folder.None? || env.folderExists)
      ensures Current() == Step(old(Current()), OpMove(folder, env))
      ensures error.None? ==> Current() == old(Current()).(live := old(live).(folder := folder))
      ensures updatedAt == old(updatedAt) + (if error.None? then 1 else 0)
    {
      if archived { return Some(Archived); }
      if folder.Some? && !env.folderExists { return Some(FolderMissing); }
      live := live.(folder := folder);
      updatedAt := updatedAt + 1;
      return None;
    }

    method Archive() returns (error: Option<Error>)
      modifies this
      ensures error.None? <==> !old(archived)
      ensures Current() == Step(old(Current()), OpArchive)
      ensures if error.None? then archived && updatedAt > old(updatedAt) else updatedAt == old(updatedAt)
    {
      if archived { return Some(Archived); }
      if HasDraft(versions) {
        var lastPublished := LatestPublished(versions);
        if lastPublished.Some? {
          live := versions[lastPublished.value].snapshot.row;
          updatedAt := updatedAt + 1;
        }
        versions := DropDraft(versions);
      }
      archived := true;
      updatedAt := updatedAt + 1;
      return None;
    }

    method Restore(env: Env) returns (error: Option<Error>)
      modifies this
      ensures error.None? <==> old(archived) && env.slugFree
      ensures Current() == Step(old(Current()), OpRestore(env))
      ensures error.None? ==> Current() == old(Current()).(archived := false)
      ensures updatedAt == old(updatedAt) + (if error.None? then 1 else 0)
    {
      if !archived { return Some(NotArchived); }
      if !env.slugFree { return Some(SlugTaken); }
      archived := false;
      updatedAt := updatedAt + 1;
      return None;
    }

    method DiscardDraft() returns (error: Option<Error>)
      modifies this
      ensures Current() == Step(old(Current()), OpDiscardDraft)
      ensures error.None? ==> Current() == Reverted(old(Current()))
      ensures error.None? <==> !old(archived) && (HasDraft(old(versions)) ==> LatestPublished(old(versions)).Some?)
      ensures updatedAt == old(updatedAt) + (if error.None? && HasDraft(old(versions)) then 1 else 0)
    {
      if archived { return Some(Archived); }
      if !HasDraft(versions) { return None; }
      var lastPublished := LatestPublished(versions);
      if lastPublished.None? { return Some(NothingPublished); }
      live := versions[lastPublished.value].snapshot.row;
      updatedAt := updatedAt + 1;
      versions := DropDraft(versions);
      return None;
    }

    // Two transactions: the draft is discarded first, then the target is saved.
    method RestoreVersion(number: nat, env: Env) returns (error: Option<Error>)
      modifies this
      ensures (Current(), error) == ArticleHistory.RestoreVersion(old(Current()), number, env)
      ensures updatedAt >= old(updatedAt)
      ensures error.None? ==> updatedAt > old(updatedAt)
    {
      if archived { return Some(Archived); }
      var target := FindPublished(versions, number);
      if target.None? { return Some(NotFound); }
      var row := versions[target.value].snapshot.row;
      var dropped := DiscardDraft();
      error := Update(RestoreInput(row), env.(expectedRevision := None));
    }
  }
}
