// Every interleaving of addField attempts with each other and with saves of the same
// layout, which read it first and commit later
// (apps/api/src/asset-layouts/asset-layouts.service.ts).
module LayoutAddField {
  import opened Basics
  import opened LayoutFields
  import opened LayoutTheorems

  // A request to add a field, between its steps; `attempt` counts the retries.
  datatype Phase = Waiting(attempt: nat) | Holding(attempt: nat, seen: Snapshot) | Done(result: Attempt)

  datatype Request = Request(field: NewField, phase: Phase)

  // A save reads the layout and checks the payload against it; its transaction runs
  // later and compares with what was read.
  datatype SavePhase = Unread | Checked(seen: Snapshot) | Saved(error: Option<SaveError>)

  datatype SaveRequest = SaveRequest(input: seq<Incoming>, force: bool, phase: SavePhase)

  datatype World = World(layout: Snapshot, requests: map<nat, Request>, saves: map<nat, SaveRequest>)

  datatype Event =
    | Read(request: nat)
    | Write(request: nat)
    | ReadLayout(save: nat, withValues: set<nat>)
    | Commit(save: nat)
    | SetArchived(archived: bool)

  // The payload schema: exactly one primary among the fields.
  predicate PassesSchema(input: seq<Incoming>) {
    && 1 <= |input| <= MAX_FIELDS && SlugsDifferIn(input)
    && OnePrimaryIn(input) && exists k | 0 <= k < |input| :: input[k].settings.isPrimary
  }

  function Committed(layout: Snapshot, seen: Snapshot, f: NewField): Snapshot {
    if AttemptOn(layout, seen, f).Added?
    then layout.(table := WithRow(layout.table, RowToAdd(seen.table, f)), version := layout.version + 1)
    else layout
  }

  // A raced attempt is retried once.
  function PhaseAfter(attempt: nat, result: Attempt): Phase {
    if result.Raced? && attempt == 0 then Waiting(1) else Done(result)
  }

  function PhaseAfterChecks(layout: Snapshot, save: SaveRequest, withValues: set<nat>): SavePhase {
    var error := CheckError(layout, save.input, save.force, withValues);
    if error.Some? then Saved(error) else Checked(layout)
  }

  // Whether the transaction goes through; no version guards it.
  predicate Commits(layout: Snapshot, seen: Snapshot, input: seq<Incoming>) {
    KeepsRows(seen.table, layout.table) && EveryStatementHolds(layout.table, LiveIds(seen.table), input)
  }

  function LayoutSaved(layout: Snapshot, seen: Snapshot, input: seq<Incoming>): Snapshot {
    if Commits(layout, seen, input)
    then layout.(table := Upserted(layout.table, LiveIds(seen.table), input, |input|), version := layout.version + 1)
    else layout
  }

  function SavedAs(layout: Snapshot, seen: Snapshot, input: seq<Incoming>): SavePhase {
    Saved(if Commits(layout, seen, input) then None else Some(IndexViolated))
  }

  predicate Holds(w: World, r: nat) { r in w.requests && w.requests[r].phase.Holding? }

  predicate MayCommit(w: World, s: nat) { s in w.saves && w.saves[s].phase.Checked? }

  function Next(w: World, e: Event): World {
    match e
    case Read(r) =>
      if r in w.requests && w.requests[r].phase.Waiting?
      then w.(requests := w.requests[r := w.requests[r].(phase := Holding(w.requests[r].phase.attempt, w.layout))])
      else w
    case Write(r) =>
      if Holds(w, r) then
        var phase, f := w.requests[r].phase, w.requests[r].field;
        var after := PhaseAfter(phase.attempt, AttemptOn(w.layout, phase.seen, f));
        w.(layout := Committed(w.layout, phase.seen, f), requests := w.requests[r := Request(f, after)])
      else w
    case ReadLayout(s, withValues) =>
      if s in w.saves && w.saves[s].phase.Unread? && PassesSchema(w.saves[s].input)
      then w.(saves := w.saves[s := w.saves[s].(phase := PhaseAfterChecks(w.layout, w.saves[s], withValues))])
      else w
    case Commit(s) =>
      if MayCommit(w, s) then
        var seen, input := w.saves[s].phase.seen, w.saves[s].input;
        w.(layout := LayoutSaved(w.layout, seen, input),
           saves := w.saves[s := w.saves[s].(phase := SavedAs(w.layout, seen, input))])
      else w
    case SetArchived(archived) => w.(layout := w.layout.(archived := archived, version := w.layout.version + 1))
  }

  function Run(w: World, events: seq<Event>): World {
    if events == [] then w else Next(Run(w, events[..|events| - 1]), events[|events| - 1])
  }

  // A save's two steps with nothing in between are the save itself: the same error,
  // or the same table.
  lemma StepsMakeTheSave(layout: Snapshot, save: SaveRequest, withValues: set<nat>)
    requires save.phase.Unread?
    ensures var error := SaveOutcome(layout.table, layout, save.input, save.force, withValues);
            var checked := PhaseAfterChecks(layout, save, withValues);
            && (checked.Saved? ==> checked.error == error && error.Some?)
            && (checked.Checked? ==>
                  && SavedAs(layout, checked.seen, save.input) == Saved(error)
                  && (error.Some? ==> LayoutSaved(layout, checked.seen, save.input) == layout)
                  && (error.None? ==> LayoutSaved(layout, checked.seen, save.input).table
                                      == Upserted(layout.table, LiveIds(layout.table), save.input, |save.input|)))
  {
  }

  // --------------------------------------------------------------------
  // What every interleaving keeps
  // --------------------------------------------------------------------

  ghost predicate SoundTable(t: Table) { IsTable(t) && IndexesHold(t) }

  // What was read is the layout itself as long as the version has not moved, and
  // every row of it is still there.
  ghost predicate Fresh(layout: Snapshot, seen: Snapshot) {
    && seen.version <= layout.version && (seen.version == layout.version ==> seen == layout)
    && KeepsRows(seen.table, layout.table)
  }

  ghost predicate ReadsAreFresh(w: World) {
    && (forall r | r in w.requests :: w.requests[r].phase.Holding? ==> Fresh(w.layout, w.requests[r].phase.seen))
    && (forall s | s in w.saves :: w.saves[s].phase.Checked? ==>
          Fresh(w.layout, w.saves[s].phase.seen) && PassesSchema(w.saves[s].input))
  }

  predicate HasAdded(w: World, r: nat) {
    r in w.requests && w.requests[r].phase.Done? && w.requests[r].phase.result.Added?
  }

  ghost predicate AddedApart(w: World) {
    && (forall r | HasAdded(w, r) :: w.requests[r].phase.result.id < w.layout.table.nextId)
    && (forall r, q | HasAdded(w, r) && HasAdded(w, q) && r != q ::
          w.requests[r].phase.result.id != w.requests[q].phase.result.id)
  }

  ghost predicate Sound(w: World) { SoundTable(w.layout.table) && ReadsAreFresh(w) && AddedApart(w) }

  // A row whose slug and position no live row has.
  ghost predicate Fits(t: Table, row: Row) {
    && !row.archived && (row.settings.isPrimary ==> NoPrimary(t))
    && forall id | IsLive(t, id) :: t.rows[id].settings.slug != row.settings.slug && t.rows[id].position < row.position
  }

  lemma FittingRowKeepsIndexes(t: Table, row: Row)
    requires SoundTable(t) && Fits(t, row)
    ensures SoundTable(WithRow(t, row))
  {
    var u := WithRow(t, row);
    assert forall id | IsLive(u, id) && id != t.nextId :: IsLive(t, id) && u.rows[id] == t.rows[id];
  }

  lemma RowToAddFits(t: Table, f: NewField)
    requires SoundTable(t) && SlugHolder(t, f.settings.slug, t.nextId).None?
    ensures Fits(t, RowToAdd(t, f))
  {
    var row := RowToAdd(t, f);
    forall id: nat | IsLive(t, id)
      ensures t.rows[id].settings.slug != row.settings.slug && t.rows[id].position < row.position
    {
      assert id < t.nextId;
    }
  }

  // An attempt that finds its version unmoved never breaks an index.
  lemma UnmovedAttemptIsAdded(layout: Snapshot, seen: Snapshot, f: NewField)
    requires SoundTable(layout.table) && seen == layout
    ensures !AttemptOn(layout, seen, f).Raced?
    ensures AttemptOn(layout, seen, f).Added? ==>
      Fits(layout.table, RowToAdd(seen.table, f)) && |LiveIds(layout.table)| < MAX_FIELDS
      && SoundTable(WithRow(layout.table, RowToAdd(seen.table, f)))
  {
    if SlugHolder(layout.table, f.settings.slug, layout.table.nextId).None? {
      RowToAddFits(layout.table, f);
      FittingRowKeepsIndexes(layout.table, RowToAdd(layout.table, f));
    }
  }

  lemma UpsertedIsTable(t: Table, existing: set<nat>, input: seq<Incoming>)
    requires IsTable(t) && existing <= t.rows.Keys
    ensures IsTable(Upserted(t, existing, input, |input|)) && t.nextId <= Upserted(t, existing, input, |input|).nextId
  {
    var u := Upserted(t, existing, input, |input|);
    UpsertedIs(t, existing, input, |input|, 0);
    forall id | id in u.rows ensures id < u.nextId {
      UpsertedIs(t, existing, input, |input|, id);
      var j := Writer(t, existing, input, |input|, id);
      if j >= 0 { CreatesGrows(existing, input, j, |input|); }
    }
  }

  // Any change of the layout moves its version and keeps its rows.
  ghost predicate Moves(before: Snapshot, after: Snapshot) {
    && SoundTable(after.table) && after.version == before.version + 1
    && before.table.nextId <= after.table.nextId && KeepsRows(before.table, after.table)
  }

  lemma MoveKeepsSound(w: World, layout: Snapshot)
    requires Sound(w) && Moves(w.layout, layout)
    ensures Sound(w.(layout := layout))
  {
  }

  lemma SettlingKeepsSound(w: World, r: nat, request: Request)
    requires Sound(w) && r in w.requests && !request.phase.Holding?
    requires request.phase.Done? && request.phase.result.Added? ==>
      && request.phase.result.id < w.layout.table.nextId
      && forall q | HasAdded(w, q) :: w.requests[q].phase.result.id != request.phase.result.id
    ensures Sound(w.(requests := w.requests[r := request]))
  {
  }

  lemma WriteKeepsSound(w: World, r: nat)
    requires Sound(w) && Holds(w, r)
    ensures Sound(Next(w, Write(r)))
  {
    var phase, f := w.requests[r].phase, w.requests[r].field;
    var result, layout := AttemptOn(w.layout, phase.seen, f), Committed(w.layout, phase.seen, f);
    assert Fresh(w.layout, phase.seen);
    if result.Added? {
      UnmovedAttemptIsAdded(w.layout, phase.seen, f);
      MoveKeepsSound(w, layout);
    }
    SettlingKeepsSound(w.(layout := layout), r, Request(f, PhaseAfter(phase.attempt, result)));
  }

  lemma CommitKeepsSound(w: World, s: nat)
    requires Sound(w) && MayCommit(w, s)
    ensures Sound(Next(w, Commit(s)))
  {
    var seen, input := w.saves[s].phase.seen, w.saves[s].input;
    if Commits(w.layout, seen, input) {
      UpsertedIsTable(w.layout.table, LiveIds(seen.table), input);
      MoveKeepsSound(w, LayoutSaved(w.layout, seen, input));
    }
  }

  lemma StepKeepsSound(w: World, e: Event)
    requires Sound(w)
    ensures Sound(Next(w, e))
  {
    match e
    case Read(r) => {}
    case Write(r) => if Holds(w, r) { WriteKeepsSound(w, r); }
    case ReadLayout(s, withValues) => {}
    case Commit(s) => if MayCommit(w, s) { CommitKeepsSound(w, s); }
    case SetArchived(archived) => {
      MoveKeepsSound(w, w.layout.(archived := archived, version := w.layout.version + 1));
    }
  }

  // In every interleaving: live slugs stay distinct, at most one field is primary, and
  // no two requests added the same row.
  lemma {:induction false} EveryRunStaysSound(w: World, events: seq<Event>)
    requires Sound(w)
    ensures Sound(Run(w, events))
  {
    if events != [] {
      EveryRunStaysSound(w, events[..|events| - 1]);
      StepKeepsSound(Run(w, events[..|events| - 1]), events[|events| - 1]);
    }
  }

  // --------------------------------------------------------------------
  // Positions and the number of fields
  // --------------------------------------------------------------------

  ghost predicate Tidy(t: Table) { PositionsDiffer(t) && |LiveIds(t)| <= MAX_FIELDS }

  // What a save would leave among the fields that went live since it read: nothing at
  // a position the payload fills, and no more than the limit together.
  predicate LeavesTidy(t: Table, existing: set<nat>, input: seq<Incoming>)
    requires existing <= t.rows.Keys
  {
    && UnseenStandApart(t, existing, input)
    && |UnseenIds(t, existing)| + |Filled(t, existing, input)| <= MAX_FIELDS
  }

  predicate IsClean(w: World, e: Event) {
    e.Commit? && MayCommit(w, e.save) && Commits(w.layout, w.saves[e.save].phase.seen, w.saves[e.save].input) ==>
      LeavesTidy(w.layout.table, LiveIds(w.saves[e.save].phase.seen.table), w.saves[e.save].input)
  }

  lemma AddingKeepsPositions(t: Table, row: Row, x: nat, y: nat)
    requires IsTable(t) && PositionsDiffer(t) && Fits(t, row)
    requires IsLive(WithRow(t, row), x) && IsLive(WithRow(t, row), y)
    requires WithRow(t, row).rows[x].position == WithRow(t, row).rows[y].position
    ensures x == y
  {
    if x != t.nextId { assert IsLive(t, x); }
    if y != t.nextId { assert IsLive(t, y); }
  }

  lemma AddingAddsOne(t: Table, row: Row)
    requires IsTable(t) && !row.archived
    ensures |LiveIds(WithRow(t, row))| == |LiveIds(t)| + 1
  {
    assert LiveIds(WithRow(t, row)) == LiveIds(t) + {t.nextId};
  }

  lemma AddingKeepsTidy(t: Table, row: Row)
    requires SoundTable(t) && Tidy(t) && Fits(t, row) && |LiveIds(t)| < MAX_FIELDS
    ensures Tidy(WithRow(t, row))
  {
    AddingAddsOne(t, row);
    var u := WithRow(t, row);
    forall x, y | IsLive(u, x) && IsLive(u, y) && u.rows[x].position == u.rows[y].position ensures x == y {
      AddingKeepsPositions(t, row, x, y);
    }
  }

  lemma SavingKeepsTidyExactly(t: Table, existing: set<nat>, input: seq<Incoming>)
    requires SoundTable(t) && Tidy(t) && existing <= t.rows.Keys
    ensures Tidy(Upserted(t, existing, input, |input|)) == LeavesTidy(t, existing, input)
  {
    SavedPositionsDifferExactly(t, existing, input);
    SavedCount(t, existing, input);
  }

  lemma WriteKeepsTidy(w: World, r: nat)
    requires Sound(w) && Tidy(w.layout.table) && Holds(w, r)
    ensures Tidy(Next(w, Write(r)).layout.table)
  {
    var phase, f := w.requests[r].phase, w.requests[r].field;
    assert Fresh(w.layout, phase.seen);
    if AttemptOn(w.layout, phase.seen, f).Added? {
      UnmovedAttemptIsAdded(w.layout, phase.seen, f);
      AddingKeepsTidy(w.layout.table, RowToAdd(phase.seen.table, f));
    }
  }

  lemma SavedLayoutIsTidyExactly(layout: Snapshot, seen: Snapshot, input: seq<Incoming>)
    requires SoundTable(layout.table) && Tidy(layout.table)
    ensures Tidy(LayoutSaved(layout, seen, input).table)
         == (Commits(layout, seen, input) ==> LeavesTidy(layout.table, LiveIds(seen.table), input))
  {
    if Commits(layout, seen, input) { SavingKeepsTidyExactly(layout.table, LiveIds(seen.table), input); }
  }

  lemma CommitKeepsTidyExactly(w: World, s: nat)
    requires Sound(w) && Tidy(w.layout.table) && MayCommit(w, s)
    ensures Tidy(Next(w, Commit(s)).layout.table) == IsClean(w, Commit(s))
  {
    SavedLayoutIsTidyExactly(w.layout, w.saves[s].phase.seen, w.saves[s].input);
  }

  lemma StepKeepsTidyExactly(w: World, e: Event)
    requires Sound(w) && Tidy(w.layout.table)
    ensures Tidy(Next(w, e).layout.table) == IsClean(w, e)
  {
    match e
    case Read(r) => {}
    case Write(r) => if Holds(w, r) { WriteKeepsTidy(w, r); }
    case ReadLayout(s, withValues) => {}
    case Commit(s) => if MayCommit(w, s) { CommitKeepsTidyExactly(w, s); }
    case SetArchived(archived) => {}
  }

  ghost predicate TidyThroughout(w: World, events: seq<Event>) {
    forall k | 0 <= k <= |events| :: Tidy(Run(w, events[..k]).layout.table)
  }

  ghost predicate CleanThroughout(w: World, events: seq<Event>) {
    forall k | 0 <= k < |events| :: IsClean(Run(w, events[..k]), events[k])
  }

  lemma RunTo(w: World, events: seq<Event>, k: nat)
    requires k < |events|
    ensures Run(w, events[..k + 1]) == Next(Run(w, events[..k]), events[k])
  {
    assert events[..k + 1][..k] == events[..k];
  }

  lemma {:induction false} CleanRunIsTidyAt(w: World, events: seq<Event>, k: nat)
    requires Sound(w) && Tidy(w.layout.table) && CleanThroughout(w, events) && k <= |events|
    ensures Tidy(Run(w, events[..k]).layout.table)
  {
    if k > 0 {
      CleanRunIsTidyAt(w, events, k - 1);
      EveryRunStaysSound(w, events[..k - 1]);
      StepKeepsTidyExactly(Run(w, events[..k - 1]), events[k - 1]);
      RunTo(w, events, k - 1);
    }
  }

  // In every interleaving positions stay distinct and at most a hundred fields live
  // exactly when every save that commits leaves room for what it has not seen.
  lemma RunStaysTidyExactly(w: World, events: seq<Event>)
    requires Sound(w) && Tidy(w.layout.table)
    ensures TidyThroughout(w, events) == CleanThroughout(w, events)
  {
    if CleanThroughout(w, events) {
      forall k | 0 <= k <= |events| ensures Tidy(Run(w, events[..k]).layout.table) { CleanRunIsTidyAt(w, events, k); }
    } else {
      var k :| 0 <= k < |events| && !IsClean(Run(w, events[..k]), events[k]);
      EveryRunStaysSound(w, events[..k]);
      RunTo(w, events, k);
      if Tidy(Run(w, events[..k]).layout.table) { StepKeepsTidyExactly(Run(w, events[..k]), events[k]); }
    }
  }

  // A save of a layout no field was added to since its read is clean, whatever else
  // other saves did in between.
  lemma SaveThatSawAllIsClean(w: World, s: nat)
    requires Sound(w) && MayCommit(w, s) && LiveIds(w.layout.table) <= LiveIds(w.saves[s].phase.seen.table)
    ensures IsClean(w, Commit(s))
  {
    var t, existing := w.layout.table, LiveIds(w.saves[s].phase.seen.table);
    assert UnseenIds(t, existing) == {};
    if existing <= t.rows.Keys { SavedCount(t, existing, w.saves[s].input); }
  }

  // --------------------------------------------------------------------
  // Which fields are lost
  // --------------------------------------------------------------------

  // A save that read the field as live and leaves it out of its payload.
  predicate Removes(w: World, e: Event, id: nat) {
    && e.Commit? && MayCommit(w, e.save)
    && Commits(w.layout, w.saves[e.save].phase.seen, w.saves[e.save].input)
    && id in RemovedIds(LiveIds(w.saves[e.save].phase.seen.table), w.saves[e.save].input)
  }

  lemma SaveRemovesExactly(t: Table, existing: set<nat>, input: seq<Incoming>, id: nat)
    requires IsTable(t) && existing <= t.rows.Keys && id in t.rows
    ensures IsLive(Upserted(t, existing, input, |input|), id) == (IsLive(t, id) && id !in RemovedIds(existing, input))
  {
    UpsertedIs(t, existing, input, |input|, id);
  }

  lemma StepRemovesExactly(w: World, e: Event, id: nat)
    requires Sound(w) && id in w.layout.table.rows
    ensures IsLive(Next(w, e).layout.table, id) == (IsLive(w.layout.table, id) && !Removes(w, e, id))
  {
    if e.Commit? && MayCommit(w, e.save) && Commits(w.layout, w.saves[e.save].phase.seen, w.saves[e.save].input) {
      var save := w.saves[e.save];
      SaveRemovesExactly(w.layout.table, LiveIds(save.phase.seen.table), save.input, id);
    }
  }

  ghost predicate NobodyRemoves(w: World, events: seq<Event>, id: nat) {
    forall k | 0 <= k < |events| :: !Removes(Run(w, events[..k]), events[k], id)
  }

  lemma StepKeepsRow(w: World, e: Event)
    requires Sound(w)
    ensures KeepsRows(w.layout.table, Next(w, e).layout.table)
  {
  }

  lemma {:induction false} RunKeepsRows(w: World, events: seq<Event>)
    requires Sound(w)
    ensures KeepsRows(w.layout.table, Run(w, events).layout.table)
  {
    if events != [] {
      var front := events[..|events| - 1];
      RunKeepsRows(w, front);
      EveryRunStaysSound(w, front);
      StepKeepsRow(Run(w, front), events[|events| - 1]);
    }
  }

  // In every interleaving a live field stays live exactly when no committed save that
  // read it left it out: a save never removes a field added after it read.
  lemma {:induction false} FieldStaysExactly(w: World, events: seq<Event>, id: nat)
    requires Sound(w) && IsLive(w.layout.table, id)
    ensures IsLive(Run(w, events).layout.table, id) == NobodyRemoves(w, events, id)
  {
    if events != [] {
      var n := |events| - 1;
      var front := events[..n];
      FieldStaysExactly(w, front, id);
      EveryRunStaysSound(w, front);
      RunKeepsRows(w, front);
      StepRemovesExactly(Run(w, front), events[n], id);
      NobodyRemovesSplits(w, events, id);
    }
  }

  lemma NobodyRemovesSplits(w: World, events: seq<Event>, id: nat)
    requires events != []
    ensures var n := |events| - 1;
            NobodyRemoves(w, events, id)
            == (NobodyRemoves(w, events[..n], id) && !Removes(Run(w, events[..n]), events[n], id))
  {
    var n := |events| - 1;
    assert forall k | 0 <= k < n :: events[..n][..k] == events[..k] && events[..n][k] == events[k];
  }

  lemma {:induction false} AddsLoseNothing(w: World, events: seq<Event>, id: nat)
    requires Sound(w) && IsLive(w.layout.table, id) && forall k | 0 <= k < |events| :: !events[k].Commit?
    ensures id in Run(w, events).layout.table.rows && Run(w, events).layout.table.rows[id] == w.layout.table.rows[id]
  {
    if events != [] {
      var front := events[..|events| - 1];
      AddsLoseNothing(w, front, id);
      EveryRunStaysSound(w, front);
    }
  }

  // --------------------------------------------------------------------
  // One request
  // --------------------------------------------------------------------

  lemma HighestIsReached(t: Table)
    requires IsTable(t)
    ensures var p := HighestPosition(t, t.nextId);
            && (forall x | IsLive(t, x) :: t.rows[x].position < p + 1)
            && (p + 1 == 0 || exists x | IsLive(t, x) :: t.rows[x].position == p)
  {
  }

  // A request that reports a new field has put it last in the layout as it stood at
  // that moment, primary exactly when there was no other, and with its own settings
  // otherwise; every other row is as it was.
  lemma AddedFieldStandsLast(w: World, r: nat, id: nat)
    requires Sound(w) && Holds(w, r)
    requires Next(w, Write(r)).requests[r].phase == Done(Added(id))
    ensures var t, u, f := w.layout.table, Next(w, Write(r)).layout.table, w.requests[r].field;
            && id !in t.rows && u.rows.Keys == t.rows.Keys + {id} && (forall x | x in t.rows :: u.rows[x] == t.rows[x])
            && IsLive(u, id) && u.rows[id].fieldType == f.fieldType
            && u.rows[id].settings == f.settings.(isPrimary := u.rows[id].settings.isPrimary)
            && (u.rows[id].settings.isPrimary <==> NoPrimary(t))
            && (forall x | IsLive(t, x) :: t.rows[x].position < u.rows[id].position)
            && (u.rows[id].position == 0 || exists x | IsLive(t, x) :: t.rows[x].position == u.rows[id].position - 1)
  {
    assert Fresh(w.layout, w.requests[r].phase.seen);
    HighestIsReached(w.layout.table);
  }

  // Only a first attempt that raced is tried again; a request that ends in a conflict
  // has raced twice.
  lemma OnlyARacedFirstAttemptIsRetried(w: World, r: nat)
    requires Holds(w, r)
    ensures var held, after := w.requests[r].phase, Next(w, Write(r)).requests[r].phase;
            && (after == Waiting(1) <==>
                  AttemptOn(w.layout, held.seen, w.requests[r].field) == Raced && held.attempt == 0)
            && (after == Done(Raced) ==> held.attempt != 0)
            && (after == Waiting(1) || after == Done(AttemptOn(w.layout, held.seen, w.requests[r].field)))
  {
  }

  // What one attempt reports of the layout it read.
  lemma AttemptReportsExactly(now: Snapshot, seen: Snapshot, f: NewField)
    requires SoundTable(seen.table)
    ensures AttemptOn(now, seen, f) == Refused <==> seen.archived
    ensures forall id :: AttemptOn(now, seen, f) == Found(id)
                    <==> && !seen.archived && IsLive(seen.table, id)
                         && seen.table.rows[id].settings.slug == f.settings.slug
    ensures AttemptOn(now, seen, f) == Full
       <==> && !seen.archived && |LiveIds(seen.table)| >= 100
            && forall id | IsLive(seen.table, id) :: seen.table.rows[id].settings.slug != f.settings.slug
  {
    var holder := SlugHolder(seen.table, f.settings.slug, seen.table.nextId);
    assert forall id: nat | IsLive(seen.table, id) :: id < seen.table.nextId;
  }

  // A request whose layout nobody else changed since its read never gives up.
  lemma QuietAttemptDoesNotRace(w: World, r: nat)
    requires Sound(w) && Holds(w, r) && w.requests[r].phase.seen.version == w.layout.version
    ensures Next(w, Write(r)).requests[r].phase.Done? && !Next(w, Write(r)).requests[r].phase.result.Raced?
  {
    assert Fresh(w.layout, w.requests[r].phase.seen);
    UnmovedAttemptIsAdded(w.layout, w.requests[r].phase.seen, w.requests[r].field);
  }

  // --------------------------------------------------------------------
  // A save that has not seen a field
  // --------------------------------------------------------------------

  function Named(slug: string, primary: bool): Settings {
    Settings(slug, slug, false, false, false, primary, false, "")
  }

  // One field, a save that turns it into two, and a request to add a third.
  function Payload(): seq<Incoming> {
    [Incoming(Some(0), "TEXT", Named("a", true)), Incoming(None, "TEXT", Named("b", false))]
  }

  function OneField(): Snapshot { Snapshot(Table(map[0 := Row("TEXT", Named("a", true), 0, false)], 1), false, 0) }

  function TwoFields(): Snapshot {
    var rows := map[0 := Row("TEXT", Named("a", true), 0, false), 1 := Row("TEXT", Named("c", false), 1, false)];
    Snapshot(Table(rows, 2), false, 1)
  }

  function StartOfCollision(): World {
    World(OneField(), map[0 := Request(NewField("TEXT", Named("c", false)), Waiting(0))],
          map[0 := SaveRequest(Payload(), false, Unread)])
  }

  function MiddleOfCollision(): World {
    World(TwoFields(), map[0 := Request(NewField("TEXT", Named("c", false)), Done(Added(1)))],
          map[0 := SaveRequest(Payload(), false, Checked(OneField()))])
  }

  lemma ThirdFieldIsAdded()
    ensures Committed(OneField(), OneField(), NewField("TEXT", Named("c", false))) == TwoFields()
    ensures AttemptOn(OneField(), OneField(), NewField("TEXT", Named("c", false))) == Added(1)
  {
    var t, f := OneField().table, NewField("TEXT", Named("c", false));
    assert LiveIds(t) == {0};
    assert HasPrimary(t) by { assert IsLive(t, 0) && t.rows[0].settings.isPrimary; }
    assert HighestPosition(t, 1) == 0 by { assert HighestPosition(t, 0) == -1; }
    assert RowToAdd(t, f) == Row("TEXT", Named("c", false), 1, false);
    assert WithRow(t, RowToAdd(t, f)).rows == TwoFields().table.rows;
  }

  lemma PayloadPasses()
    ensures PassesSchema(Payload()) && CheckError(OneField(), Payload(), false, {}).None?
  {
    assert Payload()[0].settings.isPrimary;
    assert LastWith(Payload()[..1], 0) == Some(Payload()[0]);
    assert forall id | id in LiveIds(OneField().table) :: id == 0;
  }

  lemma RunOfThree(w: World, a: Event, b: Event, c: Event)
    ensures Run(w, [a, b, c]) == Next(Next(Next(w, a), b), c)
  {
    assert [a, b, c][..2] == [a, b] && [a, b][..1] == [a];
    assert Run(w, [a]) == Next(w, a);
    assert Run(w, [a, b]) == Next(Next(w, a), b);
  }

  lemma CollisionReads(w: World, layout: Snapshot, input: seq<Incoming>, f: NewField)
    requires w == World(layout, map[0 := Request(f, Waiting(0))], map[0 := SaveRequest(input, false, Unread)])
    requires PassesSchema(input) && CheckError(layout, input, false, {}).None?
    ensures Next(Next(w, ReadLayout(0, {})), Read(0))
         == World(layout, map[0 := Request(f, Holding(0, layout))],
                  map[0 := SaveRequest(input, false, Checked(layout))])
  {
  }

  lemma CollisionWrites(w: World, layout: Snapshot, saves: map<nat, SaveRequest>, f: NewField, id: nat)
    requires w == World(layout, map[0 := Request(f, Holding(0, layout))], saves)
    requires AttemptOn(layout, layout, f) == Added(id)
    ensures Next(w, Write(0)) == World(Committed(layout, layout, f), map[0 := Request(f, Done(Added(id)))], saves)
  {
  }

  lemma CollisionBegins()
    ensures Run(StartOfCollision(), [ReadLayout(0, {}), Read(0), Write(0)]) == MiddleOfCollision()
  {
    var w, f := StartOfCollision(), NewField("TEXT", Named("c", false));
    RunOfThree(w, ReadLayout(0, {}), Read(0), Write(0));
    PayloadPasses();
    CollisionReads(w, OneField(), Payload(), f);
    ThirdFieldIsAdded();
    CollisionWrites(Next(Next(w, ReadLayout(0, {})), Read(0)), OneField(), MiddleOfCollision().saves, f, 1);
  }

  lemma StaleSaveCommits()
    ensures Commits(TwoFields(), OneField(), Payload())
  {
    var t, existing, input := TwoFields().table, LiveIds(OneField().table), Payload();
    assert existing == {0};
    forall i, id | 0 <= i < |input| && id in LiveIds(t) && StillHolds(t, existing, input, i, id)
      ensures input[i].settings.slug != t.rows[id].settings.slug
    {
      assert id == 1;
    }
    PayloadPasses();
    StatementsHoldExactly(t, existing, input);
  }

  predicate OneAndTwoCollide(t: Table) {
    IsLive(t, 1) && IsLive(t, 2) && t.rows[1].position == t.rows[2].position == 1
  }

  lemma StaleSaveLeaves(t: Table, existing: set<nat>, input: seq<Incoming>)
    requires t == TwoFields().table && existing == {0} && input == Payload()
    ensures OneAndTwoCollide(Upserted(t, existing, input, |input|))
  {
    LiveAfterSave(t, existing, input, 1);
    assert IdAt(t, existing, input, 1) == 2;
    LiveAfterSave(t, existing, input, 2);
  }

  lemma StartIsSound()
    ensures Sound(StartOfCollision()) && Tidy(StartOfCollision().layout.table)
  {
    assert LiveIds(OneField().table) == {0};
  }

  lemma CommitAfter(w: World, events: seq<Event>, s: nat)
    requires |events| == 4 && events[3] == Commit(s)
    requires MayCommit(Run(w, [events[0], events[1], events[2]]), s)
    ensures var v := Run(w, [events[0], events[1], events[2]]);
            Run(w, events).layout == LayoutSaved(v.layout, v.saves[s].phase.seen, v.saves[s].input)
  {
    assert events[..3] == [events[0], events[1], events[2]];
  }

  lemma CollisionEnds()
    ensures Run(StartOfCollision(), [ReadLayout(0, {}), Read(0), Write(0), Commit(0)]).layout
         == LayoutSaved(TwoFields(), OneField(), Payload())
  {
    CollisionBegins();
    CommitAfter(StartOfCollision(), [ReadLayout(0, {}), Read(0), Write(0), Commit(0)], 0);
  }

  lemma StaleSaveCollides()
    ensures OneAndTwoCollide(LayoutSaved(TwoFields(), OneField(), Payload()).table)
  {
    StaleSaveCommits();
    assert LiveIds(OneField().table) == {0};
    StaleSaveLeaves(TwoFields().table, LiveIds(OneField().table), Payload());
  }

  // The field added between the two steps of the save stays live at position 1, where
  // the save puts its own second field.
  lemma StaleSaveSharesAPosition()
    ensures Sound(StartOfCollision()) && Tidy(StartOfCollision().layout.table)
    ensures OneAndTwoCollide(Run(StartOfCollision(), [ReadLayout(0, {}), Read(0), Write(0), Commit(0)]).layout.table)
  {
    StartIsSound();
    CollisionEnds();
    StaleSaveCollides();
  }
}
