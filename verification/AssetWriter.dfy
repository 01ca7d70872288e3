// The integration write of one asset: the field loop that fills the values to
// write, the recorded checksums and the reported differences, and the guarded
// update of the asset row (apps/api/src/assets/assets.service.ts).
module AssetWriter {
  import opened Basics
  import opened FieldPolicy

  type FieldId = nat

  datatype Entry = Entry(field: FieldId, source: Value, direction: Direction)

  datatype FieldDiff = FieldDiff(sourceValue: Value, localValue: Value)

  datatype Change = Updated | Unchanged | Blocked

  // The entry of a write that maps field `f`; a second one is refused before this is used.
  function EntryFor(entries: seq<Entry>, f: FieldId): (r: Option<Entry>)
    ensures r.Some? ==> r.value in entries && r.value.field == f
    ensures r.None? ==> forall e | e in entries :: e.field != f
  {
    if entries == [] then None
    else if entries[0].field == f then Some(entries[0])
    else EntryFor(entries[1..], f)
  }

  predicate Distinct(entries: seq<Entry>) {
    forall i, j | 0 <= i < j < |entries| :: entries[i].field != entries[j].field
  }

  class Asset {
    var values: map<FieldId, Value>
    var records: map<Integration, map<FieldId, Value>>
    var updatedAt: nat

    constructor ()
      ensures values == map[] && records == map[] && updatedAt == 0
    {
      values, records, updatedAt := map[], map[], 0;
    }

    // A null value removes the stored row, so none is ever stored.
    ghost predicate Valid()
      reads this
    {
      forall f | f in values :: values[f] != Null
    }

    ghost function At(f: FieldId): Field
      reads this
    {
      FieldOf(values, records, f)
    }

    // The write policy for one mapped field, read off the row and the sync records.
    method Classify(me: Integration, e: Entry, p: Priority, kept: Option<Value>) returns (decision: Decision)
      requires e.direction != ManualOnly
      ensures decision == Decide(p, e.direction, kept, At(e.field), me, e.source)
    {
      var f := e.field;
      var stored := if f in values then values[f] else Null;
      var own := if me in records && f in records[me] then Some(records[me][f]) else None;
      var others := records - {me};
      ghost var field := At(f);
      if others != map[] {
        assert HasOthers(field, me) by { var j :| j in others; assert j in field.base; }
        var providers := set j | j in others && f in others[j] && !IsEmpty(others[j][f]);
        assert forall j :: j in providers <==> j in field.base && OtherProvider(field, me, j);
        if providers != {} && IsEmpty(e.source) {
          assert AnotherProvides(field, me) by { var j :| j in providers; }
          return Retain;
        }
        assert !(AnotherProvides(field, me) && IsEmpty(e.source));
        if stored != Null && exists j | j in providers :: Rank(p, j) < Rank(p, me) {
          return RetainAndReport;
        }
        var ownBaseline := if Provides(own) then own else None;
        var writtenByOther := exists j | j in others :: f in others[j] && others[j][f] == stored;
        assert writtenByOther == WrittenByOther(field, me) by {
          if WrittenByOther(field, me) {
            var j :| j in field.base && j != me && field.base[j] == Some(stored);
            assert j in others;
          }
          if j :| j in others && f in others[j] && others[j][f] == stored {
            assert j in field.base && field.base[j] == Some(stored);
          }
        }
        var personsEdit := ownBaseline != Some(stored) && !writtenByOther;
        var keptLocal := kept == Some(e.source);
        decision := if e.direction == PreserveManual && stored != Null && (personsEdit || keptLocal)
                    then RetainAndReport else Overwrite;
      } else {
        assert forall j :: j in field.base && j != me ==> j in others;
        var established := me in records;
        decision := if e.direction == PreserveManual && stored != Null &&
                       (if own.Some? then own != Some(stored) else established)
                    then RetainAndReport else Overwrite;
      }
    }

    // The loop over the mapped fields: the values to write, the checksums to
    // record and the differences to report.
    method Plan(me: Integration, entries: seq<Entry>, p: Priority, kept: map<FieldId, Value>)
      returns (valuesToWrite: map<FieldId, Value>, checksums: map<FieldId, Value>, diffs: map<FieldId, FieldDiff>)
      requires Distinct(entries)
      ensures forall k | 0 <= k < |entries| ::
        Meets(me, p, kept, entries[k], At(entries[k].field),
              RecordedAt(valuesToWrite, checksums, diffs, entries[k].field))
      ensures forall f | f in valuesToWrite.Keys + checksums.Keys + diffs.Keys :: EntryFor(entries, f).Some?
    {
      valuesToWrite, checksums, diffs := map[], map[], map[];
      ghost var want := seq(|entries|, k requires 0 <= k < |entries| reads this =>
                                         Expected(me, p, kept, entries[k], At(entries[k].field)));
      for n := 0 to |entries|
        invariant forall f | f in valuesToWrite.Keys + checksums.Keys + diffs.Keys :: Mapped(entries, n, f)
        invariant forall k | 0 <= k < n :: RecordedAt(valuesToWrite, checksums, diffs, entries[k].field) == want[k]
      {
        var e := entries[n];
        var f := e.field;
        ghost var v0, c0, d0 := valuesToWrite, checksums, diffs;
        assert !Mapped(entries, n, f);
        if e.direction != ManualOnly {
          var decision := Classify(me, e, p, Look(kept, f));
          var r := RecordFor(decision, e.source, if f in values then values[f] else Null,
                             if me in records then Look(records[me], f) else None);
          if r.write.Some? { valuesToWrite := valuesToWrite[f := r.write.value]; }
          if r.checksum.Some? { checksums := checksums[f := r.checksum.value]; }
          if r.diff.Some? { diffs := diffs[f := r.diff.value]; }
        }
        assert RecordedAt(valuesToWrite, checksums, diffs, f) == want[n];
        OthersUntouched(entries, n, v0, c0, d0, valuesToWrite, checksums, diffs);
      }
      forall k | 0 <= k < |entries|
        ensures Meets(me, p, kept, entries[k], At(entries[k].field),
                      RecordedAt(valuesToWrite, checksums, diffs, entries[k].field))
      {
        ExpectedMeets(me, p, kept, entries[k], At(entries[k].field));
      }
      assert forall f | Mapped(entries, |entries|, f) :: EntryFor(entries, f).Some?;
    }

    // The row update, skipped when no value changes, and the sync record.
    method Store(me: Integration, entries: seq<Entry>, layout: set<FieldId>,
                 valuesToWrite: map<FieldId, Value>, checksums: map<FieldId, Value>)
      returns (change: Change)
      requires Valid()
      modifies this
      ensures Valid() && change != Blocked
      ensures values == Written(old(values), valuesToWrite)
      ensures records
           == old(records)[me := Carried(checksums, if me in old(records) then old(records)[me] else map[],
                                         layout, entries)]
      ensures change == Updated <==> values != old(values)
      ensures updatedAt == old(updatedAt) + (if change == Updated then 1 else 0)
    {
      WrittenDiffersExactly(values, valuesToWrite);
      change := if exists f | f in valuesToWrite :: valuesToWrite[f] != (if f in values then values[f] else Null)
                then Updated else Unchanged;
      if change == Updated {
        values := Written(values, valuesToWrite);
        updatedAt := updatedAt + 1;
      }
      records := records[me := Carried(checksums, if me in records then records[me] else map[], layout, entries)];
    }

    // One write by integration `me` of the mapped fields. Every field moves by the
    // policy on its own; a mapped field never disturbs another; baselines of
    // unmapped fields stay while the layout has the field; and the row is only
    // touched when a value changes.
    method WriteFields(me: Integration, entries: seq<Entry>, layout: set<FieldId>, p: Priority,
                       kept: map<FieldId, Value>)
      returns (change: Change, diffs: map<FieldId, FieldDiff>)
      requires Valid() && !Refused(entries, layout)
      modifies this
      ensures Valid() && change != Blocked
      ensures forall f: FieldId :: At(f) == Synced(old(At(f)), me, EntryFor(entries, f), f in layout, p, kept, f)
      ensures forall f: FieldId :: Look(diffs, f) == DiffFor(old(At(f)), me, EntryFor(entries, f), p, kept, f)
      ensures change == Updated <==> values != old(values)
      ensures updatedAt == old(updatedAt) + (if change == Updated then 1 else 0)
    {
      var valuesToWrite, checksums;
      valuesToWrite, checksums, diffs := Plan(me, entries, p, kept);
      AllSynced(values, records, me, entries, layout, p, kept, valuesToWrite, checksums, diffs);
      change := Store(me, entries, layout, valuesToWrite, checksums);
    }

    // A write that maps a field twice, or one the layout does not have, is refused
    // and changes nothing.
    method SyncFields(me: Integration, entries: seq<Entry>, layout: set<FieldId>, p: Priority,
                      kept: map<FieldId, Value>)
      returns (change: Change, diffs: map<FieldId, FieldDiff>)
      requires Valid()
      modifies this
      ensures Valid()
      ensures change == Blocked
         <==> || (exists k | 0 <= k < |entries| :: entries[k].field !in layout)
              || (exists i, j | 0 <= i < j < |entries| :: entries[i].field == entries[j].field)
      ensures change == Blocked ==> values == old(values) && records == old(records) && updatedAt == old(updatedAt)
      ensures change != Blocked
          ==> forall f: FieldId :: At(f) == Synced(old(At(f)), me, EntryFor(entries, f), f in layout, p, kept, f)
    {
      if Refused(entries, layout) {
        return Blocked, map[];
      }
      change, diffs := WriteFields(me, entries, layout, p, kept);
    }
  }

  predicate Refused(entries: seq<Entry>, layout: set<FieldId>) {
    || (exists e | e in entries :: e.field !in layout)
    || !Distinct(entries)
  }

  ghost function FieldOf(values: map<FieldId, Value>, records: map<Integration, map<FieldId, Value>>,
                         f: FieldId): Field {
    Field(if f in values then values[f] else Null,
          map i | i in records :: if f in records[i] then Some(records[i][f]) else None)
  }

  ghost predicate Mapped(entries: seq<Entry>, n: nat, f: FieldId)
    requires n <= |entries|
  {
    exists k | 0 <= k < n :: entries[k].field == f
  }

  // Storing values: a null one removes the row.
  function Written(values: map<FieldId, Value>, toWrite: map<FieldId, Value>): map<FieldId, Value> {
    map f | f in values.Keys + toWrite.Keys && (if f in toWrite then toWrite[f] else values[f]) != Null
        :: if f in toWrite then toWrite[f] else values[f]
  }

  lemma WrittenDiffersExactly(values: map<FieldId, Value>, toWrite: map<FieldId, Value>)
    requires forall f | f in values :: values[f] != Null
    ensures Written(values, toWrite) != values
      <==> exists f :: f in toWrite && toWrite[f] != (if f in values then values[f] else Null)
  {
    if f :| f in toWrite && toWrite[f] != (if f in values then values[f] else Null) {
      assert (f in Written(values, toWrite)) == (toWrite[f] != Null);
    } else {
      assert Written(values, toWrite) == values;
    }
  }

  // A fact the source left out of this run keeps its baseline while its field exists.
  function Carried(checksums: map<FieldId, Value>, previous: map<FieldId, Value>, layout: set<FieldId>,
                   entries: seq<Entry>): map<FieldId, Value> {
    map f | f in checksums.Keys + previous.Keys &&
            (f in checksums || (f in layout && EntryFor(entries, f).None?))
        :: if f in checksums then checksums[f] else previous[f]
  }

  // One field after the whole write.
  ghost function Synced(was: Field, me: Integration, entry: Option<Entry>, inLayout: bool, p: Priority,
                        kept: map<FieldId, Value>, f: FieldId): Field {
    match entry
    case Some(e) => Sync(p, e.direction, Look(kept, f), was, me, e.source)
    case None => was.(base := was.base[me := if inLayout then OwnBaseline(was, me) else None])
  }

  // A field the write does not map keeps its value and every baseline, the writer's
  // own while the layout has the field.
  lemma UnmappedFieldKeepsItsRecord(was: Field, me: Integration, inLayout: bool, p: Priority,
                                    kept: map<FieldId, Value>, f: FieldId)
    ensures var g := Synced(was, me, None, inLayout, p, kept, f);
            && g.stored == was.stored
            && (inLayout ==> OwnBaseline(g, me) == OwnBaseline(was, me))
            && (!inLayout ==> OwnBaseline(g, me) == None)
            && forall j | j in was.base && j != me :: j in g.base && g.base[j] == was.base[j]
  {
  }

  // The difference reported for one field: the sync of a writing mapping leaves a
  // value that is not the source, other than for an empty source that meets another
  // provider.
  ghost function DiffFor(was: Field, me: Integration, entry: Option<Entry>, p: Priority, kept: map<FieldId, Value>,
                         f: FieldId): Option<FieldDiff> {
    match entry
    case None => None
    case Some(e) =>
      if e.direction != ManualOnly && Sync(p, e.direction, Look(kept, f), was, me, e.source).stored != e.source &&
         !(IsEmpty(e.source) && AnotherProvides(was, me))
      then Some(FieldDiff(e.source, was.stored)) else None
  }

  // What the loop has recorded for one field.
  datatype Recorded = Recorded(write: Option<Value>, checksum: Option<Value>, diff: Option<FieldDiff>)

  function Look<T>(m: map<FieldId, T>, f: FieldId): Option<T> {
    if f in m then Some(m[f]) else None
  }

  ghost function RecordedAt(valuesToWrite: map<FieldId, Value>, checksums: map<FieldId, Value>,
                            diffs: map<FieldId, FieldDiff>, f: FieldId): Recorded {
    Recorded(Look(valuesToWrite, f), Look(checksums, f), Look(diffs, f))
  }

  // The record agrees with the policy for entry `e` on a field in state `field`.
  ghost predicate Meets(me: Integration, p: Priority, kept: map<FieldId, Value>, e: Entry, field: Field, r: Recorded) {
    var k := Look(kept, e.field);
    var after := Sync(p, e.direction, k, field, me, e.source);
    && (if r.write.Some? then r.write.value else field.stored) == after.stored
    && r.checksum == after.base[me]
    && r.diff == DiffFor(field, me, Some(e), p, kept, e.field)
  }

  // Overwriting records the new value; otherwise the baseline is kept, unless the
  // field turns out to hold the source value already, and a difference is reported.
  function RecordFor(decision: Decision, source: Value, stored: Value, own: Option<Value>): Recorded {
    match decision
    case Overwrite => Recorded(Some(source), Some(source), None)
    case Retain => Recorded(None, own, None)
    case RetainAndReport =>
      if source == stored then Recorded(None, Some(stored), None)
      else Recorded(None, own, Some(FieldDiff(source, stored)))
  }

  // What the loop body leaves behind for an entry.
  ghost function Expected(me: Integration, p: Priority, kept: map<FieldId, Value>, e: Entry, field: Field): Recorded {
    if e.direction == ManualOnly then Recorded(None, None, None)
    else
      RecordFor(Decide(p, e.direction, Look(kept, e.field), field, me, e.source),
                e.source, field.stored, OwnBaseline(field, me))
  }

  lemma ExpectedMeets(me: Integration, p: Priority, kept: map<FieldId, Value>, e: Entry, field: Field)
    ensures Meets(me, p, kept, e, field, Expected(me, p, kept, e, field))
  {
  }

  lemma OthersUntouched(entries: seq<Entry>, n: nat, v0: map<FieldId, Value>, c0: map<FieldId, Value>,
                        d0: map<FieldId, FieldDiff>,
                        v: map<FieldId, Value>, c: map<FieldId, Value>, d: map<FieldId, FieldDiff>)
    requires n < |entries| && Distinct(entries)
    requires forall f | f in v0.Keys + c0.Keys + d0.Keys :: Mapped(entries, n, f)
    requires v == v0 || (entries[n].field in v && v == v0[entries[n].field := v[entries[n].field]])
    requires c == c0 || (entries[n].field in c && c == c0[entries[n].field := c[entries[n].field]])
    requires d == d0 || (entries[n].field in d && d == d0[entries[n].field := d[entries[n].field]])
    ensures forall k | 0 <= k < n :: RecordedAt(v, c, d, entries[k].field) == RecordedAt(v0, c0, d0, entries[k].field)
    ensures forall f | f in v.Keys + c.Keys + d.Keys :: Mapped(entries, n + 1, f)
  {
    var g := entries[n].field;
    assert Mapped(entries, n + 1, g);
    forall f | f in v.Keys + c.Keys + d.Keys ensures Mapped(entries, n + 1, f) {
      if f != g { assert Mapped(entries, n, f); }
    }
  }

  lemma AllSynced(values: map<FieldId, Value>, records: map<Integration, map<FieldId, Value>>, me: Integration,
                  entries: seq<Entry>,
                  layout: set<FieldId>, p: Priority, kept: map<FieldId, Value>,
                  v: map<FieldId, Value>, c: map<FieldId, Value>, d: map<FieldId, FieldDiff>)
    requires Distinct(entries) && forall f | f in values :: values[f] != Null
    requires forall k | 0 <= k < |entries| ::
      Meets(me, p, kept, entries[k], FieldOf(values, records, entries[k].field), RecordedAt(v, c, d, entries[k].field))
    requires forall f | f in v.Keys + c.Keys + d.Keys :: EntryFor(entries, f).Some?
    ensures var previous := if me in records then records[me] else map[];
            forall f: FieldId ::
              FieldOf(Written(values, v), records[me := Carried(c, previous, layout, entries)], f)
              == Synced(FieldOf(values, records, f), me, EntryFor(entries, f), f in layout, p, kept, f)
    ensures forall f: FieldId ::
              Look(d, f) == DiffFor(FieldOf(values, records, f), me, EntryFor(entries, f), p, kept, f)
  {
    var previous := if me in records then records[me] else map[];
    var records' := records[me := Carried(c, previous, layout, entries)];
    forall f: FieldId
      ensures FieldOf(Written(values, v), records', f)
           == Synced(FieldOf(values, records, f), me, EntryFor(entries, f), f in layout, p, kept, f)
      ensures Look(d, f) == DiffFor(FieldOf(values, records, f), me, EntryFor(entries, f), p, kept, f)
    {
      OneSynced(values, records, me, entries, layout, p, kept, v, c, d, f);
    }
  }

  lemma OneSynced(values: map<FieldId, Value>, records: map<Integration, map<FieldId, Value>>, me: Integration,
                  entries: seq<Entry>,
                  layout: set<FieldId>, p: Priority, kept: map<FieldId, Value>,
                  v: map<FieldId, Value>, c: map<FieldId, Value>, d: map<FieldId, FieldDiff>, f: FieldId)
    requires Distinct(entries) && forall f | f in values :: values[f] != Null
    requires forall k | 0 <= k < |entries| ::
      Meets(me, p, kept, entries[k], FieldOf(values, records, entries[k].field), RecordedAt(v, c, d, entries[k].field))
    requires forall f | f in v.Keys + c.Keys + d.Keys :: EntryFor(entries, f).Some?
    ensures var previous := if me in records then records[me] else map[];
            FieldOf(Written(values, v), records[me := Carried(c, previous, layout, entries)], f)
            == Synced(FieldOf(values, records, f), me, EntryFor(entries, f), f in layout, p, kept, f)
    ensures Look(d, f) == DiffFor(FieldOf(values, records, f), me, EntryFor(entries, f), p, kept, f)
  {
    var was := FieldOf(values, records, f);
    match EntryFor(entries, f)
    case None =>
      UnmappedSynced(values, records, me, entries, layout, v, c, f);
    case Some(e) =>
      var k :| 0 <= k < |entries| && entries[k] == e;
      assert Meets(me, p, kept, e, was, RecordedAt(v, c, d, f));
      SyncTouchesOwnBaseline(p, e.direction, Look(kept, f), was, me, e.source);
      MappedSynced(values, records, me, entries, layout, v, c, f,
                   Sync(p, e.direction, Look(kept, f), was, me, e.source));
  }

  lemma UnmappedSynced(values: map<FieldId, Value>, records: map<Integration, map<FieldId, Value>>, me: Integration,
                       entries: seq<Entry>,
                       layout: set<FieldId>, v: map<FieldId, Value>, c: map<FieldId, Value>, f: FieldId)
    requires EntryFor(entries, f).None? && f !in v && f !in c
    requires forall f | f in values :: values[f] != Null
    ensures var previous := if me in records then records[me] else map[];
            var was := FieldOf(values, records, f);
            FieldOf(Written(values, v), records[me := Carried(c, previous, layout, entries)], f)
            == was.(base := was.base[me := if f in layout then OwnBaseline(was, me) else None])
  {
  }

  lemma MappedSynced(values: map<FieldId, Value>, records: map<Integration, map<FieldId, Value>>, me: Integration,
                     entries: seq<Entry>,
                     layout: set<FieldId>, v: map<FieldId, Value>, c: map<FieldId, Value>, f: FieldId, after: Field)
    requires EntryFor(entries, f).Some?
    requires forall f | f in values :: values[f] != Null
    requires (if f in v then v[f] else FieldOf(values, records, f).stored) == after.stored
    requires me in after.base && after.base == FieldOf(values, records, f).base[me := after.base[me]]
          && Look(c, f) == after.base[me]
    ensures var previous := if me in records then records[me] else map[];
            FieldOf(Written(values, v), records[me := Carried(c, previous, layout, entries)], f) == after
  {
    var previous := if me in records then records[me] else map[];
    var got := FieldOf(Written(values, v), records[me := Carried(c, previous, layout, entries)], f);
    assert got.base == after.base;
  }
}
