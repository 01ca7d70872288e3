// What a saved field list looks like, and exactly when it can be saved.
module LayoutTheorems {
  import opened Basics
  import opened LayoutFields

  // --------------------------------------------------------------------
  // Which row each field of the payload is written to
  // --------------------------------------------------------------------

  function Creates(existing: set<nat>, input: seq<Incoming>, k: nat): (n: nat)
    requires k <= |input|
    ensures n <= k
  {
    if k == 0 then 0 else Creates(existing, input, k - 1) + if Reuses(input[k - 1], existing) then 0 else 1
  }

  function IdAt(t: Table, existing: set<nat>, input: seq<Incoming>, j: nat): nat
    requires j < |input|
  {
    if Reuses(input[j], existing) then input[j].id.value else t.nextId + Creates(existing, input, j)
  }

  // The last of the first k fields written to `id`; -1 when none is.
  function Writer(t: Table, existing: set<nat>, input: seq<Incoming>, k: nat, id: nat): (j: int)
    requires k <= |input|
    ensures -1 <= j < k && (j >= 0 ==> IdAt(t, existing, input, j) == id)
    ensures forall i | j < i < k :: IdAt(t, existing, input, i) != id
  {
    if k == 0 then -1
    else if IdAt(t, existing, input, k - 1) == id then k - 1
    else Writer(t, existing, input, k - 1, id)
  }

  function RowFor(t: Table, existing: set<nat>, input: seq<Incoming>, j: nat): Row
    requires j < |input| && existing <= t.rows.Keys
  {
    var f := input[j];
    if Reuses(f, existing)
    then Row(t.rows[f.id.value].fieldType, f.settings, j, t.rows[f.id.value].archived)
    else Row(f.fieldType, f.settings, j, false)
  }

  lemma {:induction false} CreatesGrows(existing: set<nat>, input: seq<Incoming>, i: nat, j: nat)
    requires i <= j <= |input|
    ensures Creates(existing, input, i) <= Creates(existing, input, j)
    ensures i < j && !Reuses(input[i], existing) ==> Creates(existing, input, i) < Creates(existing, input, j)
  {
    if i < j { CreatesGrows(existing, input, i, j - 1); }
  }

  lemma FreshIdsAreApart(t: Table, existing: set<nat>, input: seq<Incoming>, i: nat, j: nat)
    requires IsTable(t) && existing <= t.rows.Keys && i < j < |input|
    ensures IdAt(t, existing, input, i) == IdAt(t, existing, input, j)
       <==> Reuses(input[i], existing) && Reuses(input[j], existing) && input[i].id == input[j].id
  {
    CreatesGrows(existing, input, i, j);
  }

  // Every row is what its last writer made it, or what it was when the loop started.
  function RowAfter(t: Table, existing: set<nat>, input: seq<Incoming>, k: nat, id: nat): Row
    requires k <= |input| && existing <= t.rows.Keys
    requires id in t.rows || Writer(t, existing, input, k, id) >= 0
  {
    var j := Writer(t, existing, input, k, id);
    if j >= 0 then RowFor(t, existing, input, j) else Cleared(t, existing, input).rows[id]
  }

  lemma ReusedRow(t: Table, existing: set<nat>, input: seq<Incoming>, k: nat, row: Row)
    requires IsTable(t) && existing <= t.rows.Keys && k < |input| && Reuses(input[k], existing)
    requires row == RowAfter(t, existing, input, k, input[k].id.value)
    ensures row.(settings := input[k].settings, position := k) == RowFor(t, existing, input, k)
  {
    var id := input[k].id.value;
    assert Mentions(input, id);
    assert id !in RemovedIds(existing, input);
  }

  lemma UpsertedStep(t: Table, existing: set<nat>, input: seq<Incoming>, k: nat, u: Table, id: nat)
    requires IsTable(t) && existing <= t.rows.Keys && k < |input|
    requires u.nextId == t.nextId + Creates(existing, input, k)
    requires id in u.rows <==> id in t.rows || Writer(t, existing, input, k, id) >= 0
    requires id in u.rows ==> u.rows[id] == RowAfter(t, existing, input, k, id)
    requires Reuses(input[k], existing) ==> input[k].id.value in u.rows
    ensures var v := Upsert(u, existing, input[k], k);
            && v.nextId == t.nextId + Creates(existing, input, k + 1)
            && (id in v.rows <==> id in t.rows || Writer(t, existing, input, k + 1, id) >= 0)
            && (id in v.rows ==> v.rows[id] == RowAfter(t, existing, input, k + 1, id))
  {
    if Reuses(input[k], existing) && input[k].id.value == id { ReusedRow(t, existing, input, k, u.rows[id]); }
  }

  // After k statements of the loop, row by row.
  lemma {:induction false} UpsertedIs(t: Table, existing: set<nat>, input: seq<Incoming>, k: nat, id: nat)
    requires IsTable(t) && existing <= t.rows.Keys && k <= |input|
    ensures var u := Upserted(t, existing, input, k);
            && u.nextId == t.nextId + Creates(existing, input, k)
            && (id in u.rows <==> id in t.rows || Writer(t, existing, input, k, id) >= 0)
            && (id in u.rows ==> u.rows[id] == RowAfter(t, existing, input, k, id))
  {
    if k > 0 {
      UpsertedIs(t, existing, input, k - 1, id);
      UpsertedStep(t, existing, input, k - 1, Upserted(t, existing, input, k - 1), id);
    }
  }

  // --------------------------------------------------------------------
  // The live rows after a save, fresh or stale
  // --------------------------------------------------------------------

  // A field that went live after the save read the layout.
  predicate IsUnseen(t: Table, existing: set<nat>, id: nat) { id in LiveIds(t) && id !in existing }

  // The payload's field at `p` ends up live: no later one reuses its stored id, and
  // no other save has archived that field in the meantime.
  predicate Fills(t: Table, existing: set<nat>, input: seq<Incoming>, p: nat)
    requires existing <= t.rows.Keys
  {
    && p < |input|
    && (Reuses(input[p], existing) ==>
          !t.rows[input[p].id.value].archived && forall j | p < j < |input| :: input[j].id != input[p].id)
  }

  lemma WriterIsLastUse(t: Table, existing: set<nat>, input: seq<Incoming>, p: nat)
    requires IsTable(t) && existing <= t.rows.Keys && p < |input|
    ensures Writer(t, existing, input, |input|, IdAt(t, existing, input, p)) == p
       <==> (Reuses(input[p], existing) ==> forall j | p < j < |input| :: input[j].id != input[p].id)
  {
    forall j | p < j < |input|
      ensures IdAt(t, existing, input, p) == IdAt(t, existing, input, j)
         <==> Reuses(input[p], existing) && input[j].id == input[p].id
    {
      FreshIdsAreApart(t, existing, input, p, j);
    }
  }

  lemma NamedIsWritten(t: Table, existing: set<nat>, input: seq<Incoming>, id: nat)
    requires id in existing && Mentions(input, id)
    ensures Writer(t, existing, input, |input|, id) >= 0
  {
    var j :| 0 <= j < |input| && input[j].id == Some(id);
    assert IdAt(t, existing, input, j) == id;
  }

  // Unseen fields stay as they are; of the rest, exactly the fields the payload
  // fills are live, each at its place in the payload.
  lemma LiveAfterSave(t: Table, existing: set<nat>, input: seq<Incoming>, id: nat)
    requires IsTable(t) && existing <= t.rows.Keys
    ensures var u, p := Upserted(t, existing, input, |input|), Writer(t, existing, input, |input|, id);
            && (IsLive(u, id) <==> IsUnseen(t, existing, id) || (p >= 0 && Fills(t, existing, input, p)))
            && (IsUnseen(t, existing, id) ==>
                  u.rows[id] == t.rows[id].(settings := t.rows[id].settings.(isPrimary := false)))
            && (p >= 0 && Fills(t, existing, input, p) ==> u.rows[id] == RowFor(t, existing, input, p))
            && (p >= 0 ==> !IsUnseen(t, existing, id))
  {
    var p := Writer(t, existing, input, |input|, id);
    UpsertedIs(t, existing, input, |input|, id);
    if id in existing && Mentions(input, id) { NamedIsWritten(t, existing, input, id); }
    if p >= 0 { WriterIsLastUse(t, existing, input, p); }
  }

  // --------------------------------------------------------------------
  // A save on what is still the layout leaves the payload
  // --------------------------------------------------------------------

  predicate IsField(row: Row, f: Incoming, position: int) {
    row.position == position && row.settings == f.settings && row.fieldType == f.fieldType
  }

  ghost predicate ShowsAt(t: Table, f: Incoming, position: nat) {
    exists id :: IsLive(t, id) && IsField(t.rows[id], f, position)
  }

  // The live fields are exactly the payload's, in order, at positions 0..n-1.
  ghost predicate Shows(t: Table, input: seq<Incoming>) {
    && (forall j | 0 <= j < |input| :: ShowsAt(t, input[j], j))
    && PositionsDiffer(t)
    && (forall id | IsLive(t, id) :: 0 <= t.rows[id].position < |input|)
  }

  ghost predicate PositionsDiffer(t: Table) {
    forall x, y | IsLive(t, x) && IsLive(t, y) && t.rows[x].position == t.rows[y].position :: x == y
  }

  predicate ReusesEachOnce(existing: set<nat>, input: seq<Incoming>) {
    forall i, j | 0 <= i < j < |input| && Reuses(input[i], existing) && Reuses(input[j], existing) ::
      input[i].id != input[j].id
  }

  lemma {:induction false} LastWithIs(input: seq<Incoming>, id: nat, j: nat)
    requires j < |input| && input[j].id == Some(id) && forall i | j < i < |input| :: input[i].id != Some(id)
    ensures LastWith(input, id) == Some(input[j])
  {
    if j < |input| - 1 { LastWithIs(input[..|input| - 1], id, j); }
  }

  lemma FieldIsShown(t: Table, input: seq<Incoming>, j: nat)
    requires IsTable(t) && !ChangesAType(t, input) && ReusesEachOnce(LiveIds(t), input) && j < |input|
    ensures var u, id := Upserted(t, LiveIds(t), input, |input|), IdAt(t, LiveIds(t), input, j);
            IsLive(u, id) && IsField(u.rows[id], input[j], j)
  {
    var id := IdAt(t, LiveIds(t), input, j);
    if Reuses(input[j], LiveIds(t)) {
      forall i | j < i < |input| ensures input[i].id != Some(id) {
        if input[i].id == Some(id) { assert Reuses(input[i], LiveIds(t)); }
      }
      LastWithIs(input, id, j);
    }
    WriterIsLastUse(t, LiveIds(t), input, j);
    LiveAfterSave(t, LiveIds(t), input, id);
  }

  lemma SavedPositionsDiffer(t: Table, input: seq<Incoming>)
    requires IsTable(t)
    ensures var u := Upserted(t, LiveIds(t), input, |input|);
            PositionsDiffer(u) && forall id | IsLive(u, id) :: 0 <= u.rows[id].position < |input|
  {
    var u := Upserted(t, LiveIds(t), input, |input|);
    forall id | IsLive(u, id) ensures u.rows[id].position == Writer(t, LiveIds(t), input, |input|, id) >= 0 {
      LiveAfterSave(t, LiveIds(t), input, id);
    }
  }

  // A stored id used twice keeps only its later field: the earlier position is empty.
  lemma RepeatedIdLosesAField(t: Table, input: seq<Incoming>, i: nat, j: nat)
    requires IsTable(t) && i < j < |input|
    requires Reuses(input[i], LiveIds(t)) && Reuses(input[j], LiveIds(t)) && input[i].id == input[j].id
    ensures forall id | IsLive(Upserted(t, LiveIds(t), input, |input|), id) ::
              Upserted(t, LiveIds(t), input, |input|).rows[id].position != i
  {
    var u := Upserted(t, LiveIds(t), input, |input|);
    forall id | IsLive(u, id) ensures u.rows[id].position != i { LiveAfterSave(t, LiveIds(t), input, id); }
  }

  // The save leaves exactly the payload exactly when it uses no stored id twice.
  lemma SaveShowsThePayloadExactly(t: Table, input: seq<Incoming>)
    requires IsTable(t) && !ChangesAType(t, input)
    ensures Shows(Upserted(t, LiveIds(t), input, |input|), input) == ReusesEachOnce(LiveIds(t), input)
  {
    SavedPositionsDiffer(t, input);
    if ReusesEachOnce(LiveIds(t), input) {
      AllFieldsAreShown(t, input);
    } else {
      var i, j :| 0 <= i < j < |input| && Reuses(input[i], LiveIds(t)) && Reuses(input[j], LiveIds(t))
        && input[i].id == input[j].id;
      RepeatedIdLosesAField(t, input, i, j);
    }
  }

  lemma AllFieldsAreShown(t: Table, input: seq<Incoming>)
    requires IsTable(t) && !ChangesAType(t, input) && ReusesEachOnce(LiveIds(t), input)
    ensures forall j | 0 <= j < |input| :: ShowsAt(Upserted(t, LiveIds(t), input, |input|), input[j], j)
  {
    var u := Upserted(t, LiveIds(t), input, |input|);
    forall j | 0 <= j < |input| ensures ShowsAt(u, input[j], j) {
      var id := IdAt(t, LiveIds(t), input, j);
      FieldIsShown(t, input, j);
      assert IsLive(u, id) && IsField(u.rows[id], input[j], j);
    }
  }

  // --------------------------------------------------------------------
  // A save on a layout that has moved on
  // --------------------------------------------------------------------

  // No unseen field stands where the payload puts one.
  predicate UnseenStandApart(t: Table, existing: set<nat>, input: seq<Incoming>)
    requires existing <= t.rows.Keys
  {
    forall id | id in LiveIds(t) && IsUnseen(t, existing, id) && 0 <= t.rows[id].position < |input| ::
      !Fills(t, existing, input, t.rows[id].position)
  }

  lemma CollisionIsShared(t: Table, existing: set<nat>, input: seq<Incoming>, id: nat, p: nat)
    requires IsTable(t) && existing <= t.rows.Keys && IsUnseen(t, existing, id)
    requires t.rows[id].position == p && Fills(t, existing, input, p)
    ensures !PositionsDiffer(Upserted(t, existing, input, |input|))
  {
    var other := IdAt(t, existing, input, p);
    WriterIsLastUse(t, existing, input, p);
    LiveAfterSave(t, existing, input, id);
    LiveAfterSave(t, existing, input, other);
  }

  // The positions stay distinct exactly when no unseen field stands at a position
  // the payload fills; the source does not look.
  lemma SavedPositionsDifferExactly(t: Table, existing: set<nat>, input: seq<Incoming>)
    requires IsTable(t) && existing <= t.rows.Keys && PositionsDiffer(t)
    ensures PositionsDiffer(Upserted(t, existing, input, |input|)) == UnseenStandApart(t, existing, input)
  {
    var u := Upserted(t, existing, input, |input|);
    if UnseenStandApart(t, existing, input) {
      forall x, y | IsLive(u, x) && IsLive(u, y) && u.rows[x].position == u.rows[y].position ensures x == y {
        LiveAfterSave(t, existing, input, x);
        LiveAfterSave(t, existing, input, y);
      }
    } else {
      var id :| id in LiveIds(t) && IsUnseen(t, existing, id) && 0 <= t.rows[id].position < |input|
        && Fills(t, existing, input, t.rows[id].position);
      CollisionIsShared(t, existing, input, id, t.rows[id].position);
    }
  }

  function UnseenIds(t: Table, existing: set<nat>): set<nat> { LiveIds(t) - existing }

  function Filled(t: Table, existing: set<nat>, input: seq<Incoming>): set<nat>
    requires existing <= t.rows.Keys
  {
    set p: nat | p < |input| && Fills(t, existing, input, p)
  }

  function IdOf(t: Table, existing: set<nat>, input: seq<Incoming>, p: nat): nat {
    if p < |input| then IdAt(t, existing, input, p) else 0
  }

  lemma FillersAreApart(t: Table, existing: set<nat>, input: seq<Incoming>, p: nat, q: nat)
    requires IsTable(t) && existing <= t.rows.Keys
    requires p != q && Fills(t, existing, input, p) && Fills(t, existing, input, q)
    ensures IdOf(t, existing, input, p) != IdOf(t, existing, input, q)
  {
    WriterIsLastUse(t, existing, input, p);
    WriterIsLastUse(t, existing, input, q);
  }

  lemma {:induction false} WriteIdsCount(t: Table, existing: set<nat>, input: seq<Incoming>,
                                         places: set<nat>, ids: set<nat>)
    requires IsTable(t) && existing <= t.rows.Keys && forall p | p in places :: Fills(t, existing, input, p)
    requires ids == set p | p in places :: IdOf(t, existing, input, p)
    ensures |ids| == |places|
  {
    if places == {} {
      assert ids == {};
    } else {
      var p :| p in places;
      var rest, id := places - {p}, IdOf(t, existing, input, p);
      var others := set q | q in rest :: IdOf(t, existing, input, q);
      WriteIdsCount(t, existing, input, rest, others);
      forall q | q in rest ensures IdOf(t, existing, input, q) != id { FillersAreApart(t, existing, input, p, q); }
      assert ids == others + {id};
      assert places == rest + {p};
    }
  }

  // The ids the payload's fields end up live under.
  function FilledIds(t: Table, existing: set<nat>, input: seq<Incoming>): set<nat>
    requires existing <= t.rows.Keys
  {
    set p | p in Filled(t, existing, input) :: IdOf(t, existing, input, p)
  }

  lemma FilledIdsAre(t: Table, existing: set<nat>, input: seq<Incoming>, id: nat)
    requires IsTable(t) && existing <= t.rows.Keys
    ensures id in FilledIds(t, existing, input)
       <==> var p := Writer(t, existing, input, |input|, id); p >= 0 && Fills(t, existing, input, p)
  {
    if id in FilledIds(t, existing, input) {
      var p :| p in Filled(t, existing, input) && IdOf(t, existing, input, p) == id;
      WriterIsLastUse(t, existing, input, p);
    }
    var p := Writer(t, existing, input, |input|, id);
    if p >= 0 && Fills(t, existing, input, p) {
      assert p in Filled(t, existing, input) && IdOf(t, existing, input, p) == id;
    }
  }

  lemma SavedIdsAre(t: Table, existing: set<nat>, input: seq<Incoming>)
    requires IsTable(t) && existing <= t.rows.Keys
    ensures LiveIds(Upserted(t, existing, input, |input|)) == UnseenIds(t, existing) + FilledIds(t, existing, input)
    ensures UnseenIds(t, existing) * FilledIds(t, existing, input) == {}
  {
    var u := Upserted(t, existing, input, |input|);
    forall id
      ensures id in LiveIds(u) <==> id in UnseenIds(t, existing) || id in FilledIds(t, existing, input)
      ensures !(id in UnseenIds(t, existing) && id in FilledIds(t, existing, input))
    {
      LiveAfterSave(t, existing, input, id);
      FilledIdsAre(t, existing, input, id);
    }
  }

  // The save leaves the unseen fields and the ones the payload fills, and no other.
  lemma SavedCount(t: Table, existing: set<nat>, input: seq<Incoming>)
    requires IsTable(t) && existing <= t.rows.Keys
    ensures |LiveIds(Upserted(t, existing, input, |input|))| == |UnseenIds(t, existing)| + |Filled(t, existing, input)|
    ensures |Filled(t, existing, input)| <= |input|
  {
    SavedIdsAre(t, existing, input);
    WriteIdsCount(t, existing, input, Filled(t, existing, input), FilledIds(t, existing, input));
    PlacesCount(Filled(t, existing, input), |input|);
  }

  lemma {:induction false} PlacesCount(places: set<nat>, n: nat)
    requires forall p | p in places :: p < n
    ensures |places| <= n
  {
    if n == 0 {
      assert places == {};
    } else {
      PlacesCount(places - {n - 1}, n - 1);
      assert places <= (places - {n - 1}) + {n - 1};
    }
  }

  // --------------------------------------------------------------------
  // When the slug index holds throughout
  // --------------------------------------------------------------------

  predicate SlugsDifferIn(input: seq<Incoming>) {
    forall i, j | 0 <= i < j < |input| :: input[i].settings.slug != input[j].settings.slug
  }

  // The stored field `id` is still live under its stored slug once the payload's
  // fields 0..i are written.
  predicate StillHolds(t: Table, existing: set<nat>, input: seq<Incoming>, i: nat, id: nat) {
    && id in LiveIds(t)
    && (id in existing ==> Mentions(input, id) && forall w | 0 <= w <= i && w < |input| :: input[w].id != Some(id))
  }

  // No field takes a slug that another live one still holds at that moment.
  predicate NoSlugIsTakenEarly(t: Table, existing: set<nat>, input: seq<Incoming>)
    requires existing <= t.rows.Keys
  {
    forall i, id | 0 <= i < |input| && id in LiveIds(t) && StillHolds(t, existing, input, i, id)
                   && (Reuses(input[i], existing) ==> !t.rows[input[i].id.value].archived) ::
      input[i].settings.slug != t.rows[id].settings.slug
  }

  // A live row nothing has written yet.
  lemma UnwrittenStillHolds(t: Table, existing: set<nat>, input: seq<Incoming>, k: nat, i: nat, id: nat)
    requires IsTable(t) && existing <= t.rows.Keys && i < k <= |input|
    requires IsLive(Upserted(t, existing, input, k), id) && Writer(t, existing, input, k, id) < 0
    ensures StillHolds(t, existing, input, i, id)
    ensures Upserted(t, existing, input, k).rows[id].settings.slug == t.rows[id].settings.slug
  {
    UpsertedIs(t, existing, input, k, id);
    assert id in LiveIds(t) && id !in RemovedIds(existing, input);
    if id in existing {
      forall w | 0 <= w <= i ensures input[w].id != Some(id) { assert IdAt(t, existing, input, w) != id; }
    }
  }

  lemma UnwrittenKeepsItsSlug(t: Table, existing: set<nat>, input: seq<Incoming>, k: nat, id: nat)
    requires IsTable(t) && existing <= t.rows.Keys && k <= |input|
    requires IsLive(Upserted(t, existing, input, k), id) && Writer(t, existing, input, k, id) < 0
    ensures IsLive(t, id) && Upserted(t, existing, input, k).rows[id].settings.slug == t.rows[id].settings.slug
  {
    UpsertedIs(t, existing, input, k, id);
  }

  lemma WrittenHasItsSlug(t: Table, existing: set<nat>, input: seq<Incoming>, k: nat, id: nat)
    requires IsTable(t) && existing <= t.rows.Keys && k <= |input|
    requires IsLive(Upserted(t, existing, input, k), id) && Writer(t, existing, input, k, id) >= 0
    ensures var i := Writer(t, existing, input, k, id);
            && Upserted(t, existing, input, k).rows[id].settings.slug == input[i].settings.slug
            && (Reuses(input[i], existing) ==> !t.rows[input[i].id.value].archived)
  {
    UpsertedIs(t, existing, input, k, id);
  }

  lemma SlugsHoldAt(t: Table, existing: set<nat>, input: seq<Incoming>, k: nat, x: nat, y: nat)
    requires IsTable(t) && existing <= t.rows.Keys && SlugsDiffer(t) && SlugsDifferIn(input) && k <= |input|
    requires NoSlugIsTakenEarly(t, existing, input)
    requires var u := Upserted(t, existing, input, k);
             IsLive(u, x) && IsLive(u, y) && u.rows[x].settings.slug == u.rows[y].settings.slug
    ensures x == y
  {
    var i, j := Writer(t, existing, input, k, x), Writer(t, existing, input, k, y);
    if i >= 0 { WrittenHasItsSlug(t, existing, input, k, x); } else { UnwrittenKeepsItsSlug(t, existing, input, k, x); }
    if j >= 0 { WrittenHasItsSlug(t, existing, input, k, y); } else { UnwrittenKeepsItsSlug(t, existing, input, k, y); }
    if i >= 0 && j < 0 { UnwrittenStillHolds(t, existing, input, k, i, y); }
    if i < 0 && j >= 0 { UnwrittenStillHolds(t, existing, input, k, j, x); }
  }

  lemma RowJustWritten(t: Table, existing: set<nat>, input: seq<Incoming>, i: nat)
    requires IsTable(t) && existing <= t.rows.Keys && i < |input|
    requires Reuses(input[i], existing) ==> !t.rows[input[i].id.value].archived
    ensures var u, x := Upserted(t, existing, input, i + 1), IdAt(t, existing, input, i);
            IsLive(u, x) && u.rows[x].settings == input[i].settings
  {
    UpsertedIs(t, existing, input, i + 1, IdAt(t, existing, input, i));
  }

  lemma RowNotYetWritten(t: Table, existing: set<nat>, input: seq<Incoming>, i: nat, y: nat)
    requires IsTable(t) && existing <= t.rows.Keys && i < |input| && StillHolds(t, existing, input, i, y)
    ensures var u := Upserted(t, existing, input, i + 1);
            IsLive(u, y) && u.rows[y].settings.slug == t.rows[y].settings.slug && IdAt(t, existing, input, i) != y
  {
    UpsertedIs(t, existing, input, i + 1, y);
    forall w | 0 <= w <= i ensures IdAt(t, existing, input, w) != y {
      if Reuses(input[w], existing) { assert input[w].id != Some(y); }
    }
  }

  lemma EarlySlugIsRefused(t: Table, existing: set<nat>, input: seq<Incoming>, i: nat, y: nat)
    requires IsTable(t) && existing <= t.rows.Keys && i < |input| && StillHolds(t, existing, input, i, y)
    requires Reuses(input[i], existing) ==> !t.rows[input[i].id.value].archived
    requires input[i].settings.slug == t.rows[y].settings.slug
    ensures !SlugsDiffer(Upserted(t, existing, input, i + 1))
  {
    RowJustWritten(t, existing, input, i);
    RowNotYetWritten(t, existing, input, i, y);
  }

  ghost predicate SlugsHoldThroughout(t: Table, existing: set<nat>, input: seq<Incoming>)
    requires existing <= t.rows.Keys
  {
    forall k | 0 <= k <= |input| :: SlugsDiffer(Upserted(t, existing, input, k))
  }

  // Every statement keeps the slug index exactly when no slug is taken early, for
  // every payload with distinct slugs and whatever it was compared with: in
  // particular, two fields cannot swap slugs in one save.
  lemma SlugsHoldAfterEveryStatementExactly(t: Table, existing: set<nat>, input: seq<Incoming>)
    requires IsTable(t) && existing <= t.rows.Keys && SlugsDiffer(t) && SlugsDifferIn(input)
    ensures SlugsHoldThroughout(t, existing, input) == NoSlugIsTakenEarly(t, existing, input)
  {
    if NoSlugIsTakenEarly(t, existing, input) {
      forall k | 0 <= k <= |input| ensures SlugsDiffer(Upserted(t, existing, input, k)) {
        var u := Upserted(t, existing, input, k);
        forall x, y | IsLive(u, x) && IsLive(u, y) && u.rows[x].settings.slug == u.rows[y].settings.slug
          ensures x == y
        {
          SlugsHoldAt(t, existing, input, k, x, y);
        }
      }
    } else {
      var i, id :| 0 <= i < |input| && id in LiveIds(t) && StillHolds(t, existing, input, i, id)
        && (Reuses(input[i], existing) ==> !t.rows[input[i].id.value].archived)
        && input[i].settings.slug == t.rows[id].settings.slug;
      EarlySlugIsRefused(t, existing, input, i, id);
    }
  }

  lemma StatementsHoldExactly(t: Table, existing: set<nat>, input: seq<Incoming>)
    requires IsTable(t) && existing <= t.rows.Keys && IndexesHold(t) && OnePrimaryIn(input) && SlugsDifferIn(input)
    ensures EveryStatementHolds(t, existing, input) == NoSlugIsTakenEarly(t, existing, input)
  {
    SlugsHoldAfterEveryStatementExactly(t, existing, input);
    ArchivingKeepsIndexes(t, RemovedIds(existing, input));
    if SlugsHoldThroughout(t, existing, input) {
      forall k | 0 <= k <= |input| ensures IndexesHold(Upserted(t, existing, input, k)) {
        PrimaryHoldsAfterEveryStatement(t, existing, input, k);
      }
    } else {
      var k :| 0 <= k <= |input| && !SlugsDiffer(Upserted(t, existing, input, k));
      assert !IndexesHold(Upserted(t, existing, input, k));
    }
  }

  // The last of the payload's fields with its id.
  ghost predicate IsLastWith(input: seq<Incoming>, k: nat) {
    k < |input| && input[k].id.Some? && forall j | k < j < |input| :: input[j].id != input[k].id
  }

  // No live field is given another type; of fields with one id the last counts.
  ghost predicate KeepsTypes(t: Table, input: seq<Incoming>) {
    forall k: nat | IsLastWith(input, k) && IsLive(t, input[k].id.value) ::
      input[k].fieldType == t.rows[input[k].id.value].fieldType
  }

  // Every live field with values is still in the payload.
  ghost predicate KeepsFieldsWithValues(t: Table, input: seq<Incoming>, withValues: set<nat>) {
    forall id | IsLive(t, id) && id in withValues :: exists k | 0 <= k < |input| :: input[k].id == Some(id)
  }

  lemma LastOfFront(input: seq<Incoming>, id: nat)
    requires input != [] && input[|input| - 1].id != Some(id)
    ensures var front := input[..|input| - 1];
            && (Mentions(front, id) <==> Mentions(input, id))
            && forall k: nat | k < |front| && front[k].id == Some(id) :: IsLastWith(front, k) <==> IsLastWith(input, k)
  {
    var front := input[..|input| - 1];
    assert forall k | 0 <= k < |front| :: front[k] == input[k];
  }

  lemma {:induction false} LastWithIsLast(input: seq<Incoming>, id: nat)
    ensures LastWith(input, id).None? <==> !Mentions(input, id)
    ensures forall k: nat | IsLastWith(input, k) && input[k].id == Some(id) :: LastWith(input, id) == Some(input[k])
    ensures LastWith(input, id).Some? ==>
      exists k: nat :: IsLastWith(input, k) && input[k].id == Some(id) && LastWith(input, id) == Some(input[k])
  {
    if input != [] {
      var n := |input| - 1;
      if input[n].id == Some(id) {
        assert IsLastWith(input, n);
      } else {
        LastWithIsLast(input[..n], id);
        LastOfFront(input, id);
      }
    }
  }

  lemma TypesAreKeptExactly(t: Table, input: seq<Incoming>)
    ensures KeepsTypes(t, input) <==> !ChangesAType(t, input)
  {
    if ChangesAType(t, input) {
      var id :| id in LiveIds(t) && LastWith(input, id).Some?
             && LastWith(input, id).value.fieldType != t.rows[id].fieldType;
      LastWithIsLast(input, id);
    }
    if k: nat :| IsLastWith(input, k) && IsLive(t, input[k].id.value)
                 && input[k].fieldType != t.rows[input[k].id.value].fieldType {
      LastWithIsLast(input, input[k].id.value);
      assert input[k].id.value in LiveIds(t);
    }
  }

  lemma ValuesAreKeptExactly(t: Table, input: seq<Incoming>, withValues: set<nat>)
    ensures KeepsFieldsWithValues(t, input, withValues) <==> RemovedIds(LiveIds(t), input) * withValues == {}
  {
    if RemovedIds(LiveIds(t), input) * withValues != {} {
      var id :| id in RemovedIds(LiveIds(t), input) * withValues;
      assert IsLive(t, id) && !Mentions(input, id);
    } else {
      forall id | IsLive(t, id) && id in withValues ensures Mentions(input, id) {
        assert (id in RemovedIds(LiveIds(t), input) * withValues) == !Mentions(input, id);
      }
    }
  }

  // A payload that passes the schema is saved exactly when what was read is not
  // archived, no live field is given another type, every field with values is still
  // there or the save is forced, and no slug is taken early; otherwise the first of
  // these that fails names the error.
  lemma SaveSucceedsExactly(now: Table, seen: Snapshot, input: seq<Incoming>, force: bool, withValues: set<nat>)
    requires IsTable(now) && IndexesHold(now) && KeepsRows(seen.table, now)
    requires OnePrimaryIn(input) && SlugsDifferIn(input)
    ensures SaveOutcome(now, seen, input, force, withValues)
         == if seen.archived then Some(LayoutArchived)
            else if !KeepsTypes(seen.table, input) then Some(FieldTypeImmutable)
            else if !force && !KeepsFieldsWithValues(seen.table, input, withValues) then Some(DestructiveFieldRemoval)
            else if !NoSlugIsTakenEarly(now, LiveIds(seen.table), input) then Some(IndexViolated)
            else None
  {
    StatementsHoldExactly(now, LiveIds(seen.table), input);
    TypesAreKeptExactly(seen.table, input);
    ValuesAreKeptExactly(seen.table, input, withValues);
  }

  lemma ArchivingKeepsIndexes(t: Table, ids: set<nat>)
    requires IndexesHold(t)
    ensures IndexesHold(Archive(t, ids))
  {
  }
}
