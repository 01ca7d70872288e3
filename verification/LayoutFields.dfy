// Saving a layout's field list: the transaction of saveFields in
// apps/api/src/asset-layouts/asset-layouts.service.ts, statement by statement.
module LayoutFields {
  import opened Basics

  datatype Settings = Settings(
    name: string,
    slug: string,
    isRequired: bool,
    isUniquePerCompany: bool,
    visibleToClients: bool,
    isPrimary: bool,
    showInTable: bool,
    options: string
  )

  datatype Row = Row(fieldType: string, settings: Settings, position: int, archived: bool)

  // The field rows of one layout; ids from `nextId` on are unused.
  datatype Table = Table(rows: map<nat, Row>, nextId: nat)

  predicate IsTable(t: Table) { forall id | id in t.rows :: id < t.nextId }

  datatype Incoming = Incoming(id: Option<nat>, fieldType: string, settings: Settings)

  predicate IsLive(t: Table, id: nat) { id in t.rows && !t.rows[id].archived }

  function LiveIds(t: Table): set<nat> { set id | id in t.rows && !t.rows[id].archived }

  // The two partial unique indexes over live rows.
  predicate OnePrimary(t: Table) {
    forall x, y | x in t.rows && y in t.rows && IsLive(t, x) && IsLive(t, y)
                  && t.rows[x].settings.isPrimary && t.rows[y].settings.isPrimary :: x == y
  }

  predicate SlugsDiffer(t: Table) {
    forall x, y | x in t.rows && y in t.rows && IsLive(t, x) && IsLive(t, y)
                  && t.rows[x].settings.slug == t.rows[y].settings.slug :: x == y
  }

  predicate IndexesHold(t: Table) { OnePrimary(t) && SlugsDiffer(t) }

  // --------------------------------------------------------------------
  // The statements
  // --------------------------------------------------------------------

  function Archive(t: Table, ids: set<nat>): Table {
    t.(rows := map id | id in t.rows :: if id in ids then t.rows[id].(archived := true) else t.rows[id])
  }

  function DemotedRow(row: Row): Row {
    if !row.archived && row.settings.isPrimary then row.(settings := row.settings.(isPrimary := false)) else row
  }

  function Demote(t: Table): Table { t.(rows := map id | id in t.rows :: DemotedRow(t.rows[id])) }

  predicate Reuses(f: Incoming, existing: set<nat>) { f.id.Some? && f.id.value in existing }

  function Upsert(t: Table, existing: set<nat>, f: Incoming, position: nat): Table
    requires Reuses(f, existing) ==> f.id.value in t.rows
  {
    if Reuses(f, existing) then
      var row := t.rows[f.id.value];
      t.(rows := t.rows[f.id.value := row.(settings := f.settings, position := position)])
    else Table(t.rows[t.nextId := Row(f.fieldType, f.settings, position, false)], t.nextId + 1)
  }

  // --------------------------------------------------------------------
  // The transaction
  // --------------------------------------------------------------------

  predicate Mentions(input: seq<Incoming>, id: nat) { exists j | 0 <= j < |input| :: input[j].id == Some(id) }

  function RemovedIds(existing: set<nat>, input: seq<Incoming>): set<nat> {
    set id | id in existing && !Mentions(input, id)
  }

  // The table when the upsert loop starts, and after its first k statements.
  function Cleared(t: Table, existing: set<nat>, input: seq<Incoming>): Table {
    Demote(Archive(t, RemovedIds(existing, input)))
  }

  function Upserted(t: Table, existing: set<nat>, input: seq<Incoming>, k: nat): (r: Table)
    requires k <= |input| && existing <= t.rows.Keys
    ensures t.rows.Keys <= r.rows.Keys
  {
    if k == 0 then Cleared(t, existing, input)
    else Upsert(Upserted(t, existing, input, k - 1), existing, input[k - 1], k - 1)
  }

  datatype SaveError = LayoutArchived | FieldTypeImmutable | DestructiveFieldRemoval | IndexViolated

  // The last field of the payload with this id, as a Map built from the list keeps it.
  function LastWith(input: seq<Incoming>, id: nat): Option<Incoming> {
    if input == [] then None
    else if input[|input| - 1].id == Some(id) then Some(input[|input| - 1])
    else LastWith(input[..|input| - 1], id)
  }

  predicate ChangesAType(t: Table, input: seq<Incoming>) {
    exists id | id in LiveIds(t) ::
      LastWith(input, id).Some? && LastWith(input, id).value.fieldType != t.rows[id].fieldType
  }

  // Whether every statement of the transaction leaves both indexes intact.
  predicate EveryStatementHolds(t: Table, existing: set<nat>, input: seq<Incoming>)
    requires existing <= t.rows.Keys
  {
    && IndexesHold(Archive(t, RemovedIds(existing, input)))
    && forall k | 0 <= k <= |input| :: IndexesHold(Upserted(t, existing, input, k))
  }

  // A layout as a request reads it.
  datatype Snapshot = Snapshot(table: Table, archived: bool, version: nat)

  // The checks made on what was read, before the transaction.
  function CheckError(seen: Snapshot, input: seq<Incoming>, force: bool, withValues: set<nat>): Option<SaveError> {
    if seen.archived then Some(LayoutArchived)
    else if ChangesAType(seen.table, input) then Some(FieldTypeImmutable)
    else if !force && RemovedIds(LiveIds(seen.table), input) * withValues != {} then Some(DestructiveFieldRemoval)
    else None
  }

  // Rows are archived, never deleted: what was read once is still there.
  predicate KeepsRows(seen: Table, now: Table) { seen.rows.Keys <= now.rows.Keys }

  function SaveOutcome(now: Table, seen: Snapshot, input: seq<Incoming>, force: bool,
                       withValues: set<nat>): Option<SaveError>
    requires KeepsRows(seen.table, now)
  {
    var error := CheckError(seen, input, force, withValues);
    if error.Some? then error
    else if !EveryStatementHolds(now, LiveIds(seen.table), input) then Some(IndexViolated)
    else None
  }

  // The statements in turn, on the transaction's own view of the table; None when
  // one of them breaks a unique index.
  method RunStatements(t: Table, existing: set<nat>, input: seq<Incoming>) returns (r: Option<Table>)
    requires existing <= t.rows.Keys
    ensures r == if EveryStatementHolds(t, existing, input) then Some(Upserted(t, existing, input, |input|)) else None
  {
    var view := Archive(t, RemovedIds(existing, input));
    if !IndexesHold(view) { return None; }
    view := Demote(view);
    if !IndexesHold(view) {
      assert view == Upserted(t, existing, input, 0);
      return None;
    }
    for i := 0 to |input|
      invariant view == Upserted(t, existing, input, i)
      invariant forall k | 0 <= k <= i :: IndexesHold(Upserted(t, existing, input, k))
    {
      view := Upsert(view, existing, input[i], i);
      if !IndexesHold(view) {
        assert view == Upserted(t, existing, input, i + 1);
        return None;
      }
    }
    return Some(view);
  }

  // --------------------------------------------------------------------
  // Adding one field against a layout read earlier
  // --------------------------------------------------------------------

  const MAX_FIELDS: nat := 100

  datatype NewField = NewField(fieldType: string, settings: Settings)

  datatype Attempt = Added(id: nat) | Found(id: nat) | Raced | Full | Refused

  // Math.max(-1, ...positions) over the live rows with an id below n.
  function HighestPosition(t: Table, n: nat): (p: int)
    ensures p >= -1 && forall id | 0 <= id < n && IsLive(t, id) :: t.rows[id].position <= p
    ensures p == -1 || exists id | 0 <= id < n && IsLive(t, id) :: t.rows[id].position == p
  {
    if n == 0 then -1
    else
      var p := HighestPosition(t, n - 1);
      if IsLive(t, n - 1) && t.rows[n - 1].position > p then t.rows[n - 1].position else p
  }

  function SlugHolder(t: Table, slug: string, n: nat): (r: Option<nat>)
    ensures r.Some? ==> r.value < n && IsLive(t, r.value) && t.rows[r.value].settings.slug == slug
    ensures r.None? ==> forall id | 0 <= id < n && IsLive(t, id) :: t.rows[id].settings.slug != slug
  {
    if n == 0 then None
    else if IsLive(t, n - 1) && t.rows[n - 1].settings.slug == slug then Some(n - 1)
    else SlugHolder(t, slug, n - 1)
  }

  predicate HasPrimary(t: Table) { exists id | id in t.rows :: IsLive(t, id) && t.rows[id].settings.isPrimary }

  // The row goes last, and is primary only when the layout read had none.
  function RowToAdd(seen: Table, f: NewField): Row {
    Row(f.fieldType, f.settings.(isPrimary := !HasPrimary(seen)), HighestPosition(seen, seen.nextId) + 1, false)
  }

  function WithRow(t: Table, row: Row): Table { Table(t.rows[t.nextId := row], t.nextId + 1) }

  function AttemptOn(now: Snapshot, seen: Snapshot, f: NewField): Attempt {
    if seen.archived then Refused
    else if SlugHolder(seen.table, f.settings.slug, seen.table.nextId).Some? then
      Found(SlugHolder(seen.table, f.settings.slug, seen.table.nextId).value)
    else if |LiveIds(seen.table)| >= MAX_FIELDS then Full
    else if now.version != seen.version || !IndexesHold(WithRow(now.table, RowToAdd(seen.table, f))) then Raced
    else Added(now.table.nextId)
  }

  class Layout {
    var table: Table
    var archived: bool
    var version: nat

    constructor ()
      ensures table == Table(map[], 0) && !archived && version == 0
    {
      table := Table(map[], 0);
      archived := false;
      version := 0;
    }

    // The fields to compare with were `seen` before the transaction, which does not
    // guard against changes since; `withValues` are the fields some asset has a
    // value for.
    method SaveFields(seen: Snapshot, input: seq<Incoming>, force: bool, withValues: set<nat>)
      returns (error: Option<SaveError>)
      requires KeepsRows(seen.table, table)
      modifies this
      ensures archived == old(archived)
      ensures error == SaveOutcome(old(table), seen, input, force, withValues)
      ensures error.Some? ==> table == old(table) && version == old(version)
      ensures error.None? ==>
        version == old(version) + 1 && table == Upserted(old(table), LiveIds(seen.table), input, |input|)
    {
      if seen.archived { return Some(LayoutArchived); }
      var existing := LiveIds(seen.table);
      if ChangesAType(seen.table, input) { return Some(FieldTypeImmutable); }
      var removedIds := RemovedIds(existing, input);
      if removedIds != {} && !force {
        if removedIds * withValues != {} { return Some(DestructiveFieldRemoval); }
      }
      var committed := RunStatements(table, existing, input);
      if committed.None? { return Some(IndexViolated); }
      table := committed.value;
      version := version + 1;
      return None;
    }

    // One attempt of addField on what it read; the version guards the write.
    method AddFieldOnce(seen: Snapshot, f: NewField) returns (attempt: Attempt)
      modifies this
      ensures archived == old(archived)
      ensures attempt == AttemptOn(Snapshot(old(table), old(archived), old(version)), seen, f)
      ensures attempt.Added? ==> version == old(version) + 1 && table == WithRow(old(table), RowToAdd(seen.table, f))
      ensures !attempt.Added? ==> version == old(version) && table == old(table)
    {
      if seen.archived { return Refused; }
      var existing := SlugHolder(seen.table, f.settings.slug, seen.table.nextId);
      if existing.Some? { return Found(existing.value); }
      if |LiveIds(seen.table)| >= MAX_FIELDS { return Full; }
      if version != seen.version { return Raced; }
      var id := table.nextId;
      var view := WithRow(table, RowToAdd(seen.table, f));
      if !IndexesHold(view) { return Raced; }
      version := version + 1;
      table := view;
      return Added(id);
    }
  }

  // --------------------------------------------------------------------
  // At most one primary after every statement
  // --------------------------------------------------------------------

  predicate OnePrimaryIn(input: seq<Incoming>) {
    forall i, j | 0 <= i < j < |input| :: !(input[i].settings.isPrimary && input[j].settings.isPrimary)
  }

  ghost predicate NoPrimary(t: Table) { forall id | IsLive(t, id) :: !t.rows[id].settings.isPrimary }

  lemma {:induction false} UpsertsKeepOnePrimary(t: Table, existing: set<nat>, input: seq<Incoming>, k: nat)
    requires existing <= t.rows.Keys && OnePrimaryIn(input) && k <= |input|
    ensures OnePrimary(Upserted(t, existing, input, k))
    ensures (forall j | 0 <= j < k :: !input[j].settings.isPrimary) ==> NoPrimary(Upserted(t, existing, input, k))
  {
    if k > 0 {
      UpsertsKeepOnePrimary(t, existing, input, k - 1);
      OneUpsertKeepsOnePrimary(Upserted(t, existing, input, k - 1), existing, input[k - 1], k - 1);
    }
  }

  lemma OneUpsertKeepsOnePrimary(t: Table, existing: set<nat>, f: Incoming, position: nat)
    requires Reuses(f, existing) ==> f.id.value in t.rows
    requires OnePrimary(t) && (f.settings.isPrimary ==> NoPrimary(t))
    ensures OnePrimary(Upsert(t, existing, f, position))
    ensures NoPrimary(t) && !f.settings.isPrimary ==> NoPrimary(Upsert(t, existing, f, position))
  {
  }

  // With at most one primary in the payload, no statement of the transaction leaves
  // two live primaries, whatever the stored fields and the order of the payload.
  lemma PrimaryHoldsAfterEveryStatement(t: Table, existing: set<nat>, input: seq<Incoming>, k: nat)
    requires existing <= t.rows.Keys && OnePrimary(t) && OnePrimaryIn(input) && k <= |input|
    ensures OnePrimary(Archive(t, RemovedIds(existing, input)))
    ensures NoPrimary(Cleared(t, existing, input))
    ensures OnePrimary(Upserted(t, existing, input, k))
  {
    UpsertsKeepOnePrimary(t, existing, input, k);
  }
}
