// Who owns a field that several integrations and people write: the per-field
// write policy of apps/api/src/assets/assets.service.ts, and what it means for
// whole runs of syncs.
//
// Checksums are modelled by the values they are taken of (SHA-256 of the JSON
// text is treated as injective), and canonicalisation as the identity.
module FieldPolicy {
  import opened Basics

  type Integration = nat

  // Null is "no stored row". Textarea and multiselect fields can also store an
  // empty text or an empty list, which count as "no value" for ownership but
  // not as an absent row.
  datatype Value = Null | EmptyText | EmptyList | Data(payload: int)

  predicate IsEmpty(v: Value) { !v.Data? }

  datatype Direction = SourceWins | PreserveManual | ManualOnly

  // One field of one asset: the stored value, and for every bound integration
  // the value it last wrote there, if it ever did.
  datatype Field = Field(stored: Value, base: map<Integration, Option<Value>>)

  // The priority order (driver keys, highest first) and each integration's driver.
  datatype Priority = Priority(order: seq<string>, driver: Integration -> string)

  function IndexIn(order: seq<string>, key: string): (k: nat)
    ensures k <= |order|
    ensures k < |order| ==> order[k] == key
    ensures forall j | 0 <= j < k :: order[j] != key
  {
    if order == [] || order[0] == key then 0 else 1 + IndexIn(order[1..], key)
  }

  // Lower wins; drivers outside the order all share the last rank.
  function Rank(p: Priority, i: Integration): nat { IndexIn(p.order, p.driver(i)) }

  predicate Provides(b: Option<Value>) { b.Some? && !IsEmpty(b.value) }

  predicate HasOthers(f: Field, me: Integration) { exists j :: j in f.base && j != me }

  predicate OtherProvider(f: Field, me: Integration, j: Integration) {
    j in f.base && j != me && Provides(f.base[j])
  }

  predicate AnotherProvides(f: Field, me: Integration) {
    exists j :: j in f.base && OtherProvider(f, me, j)
  }

  predicate HigherProvides(p: Priority, f: Field, me: Integration) {
    exists j :: j in f.base && OtherProvider(f, me, j) && Rank(p, j) < Rank(p, me)
  }

  predicate WrittenByOther(f: Field, me: Integration) {
    exists j :: j in f.base && j != me && f.base[j] == Some(f.stored)
  }

  function OwnBaseline(f: Field, me: Integration): Option<Value> {
    if me in f.base then f.base[me] else None
  }

  // What a sync decides for one field: leave both sides alone, leave the value
  // but compare it with the source, or write the source.
  datatype Decision = Retain | RetainAndReport | Overwrite

  function Decide(p: Priority, d: Direction, kept: Option<Value>, f: Field, me: Integration, source: Value): Decision {
    if HasOthers(f, me) then
      if AnotherProvides(f, me) && IsEmpty(source) then Retain
      else if f.stored != Null && HigherProvides(p, f, me) then RetainAndReport
      else
        var own := if Provides(OwnBaseline(f, me)) then OwnBaseline(f, me) else None;
        var personsEdit := own != Some(f.stored) && !WrittenByOther(f, me);
        if d == PreserveManual && f.stored != Null && (personsEdit || kept == Some(source))
        then RetainAndReport else Overwrite
    else if d == PreserveManual && f.stored != Null &&
            (if OwnBaseline(f, me).Some? then OwnBaseline(f, me) != Some(f.stored) else me in f.base)
    then RetainAndReport
    else Overwrite
  }

  // The field after integration `me` syncs `source`. With ManualOnly nothing is
  // decided, but the sync record is rewritten without this field's baseline.
  function Sync(p: Priority, d: Direction, kept: Option<Value>, f: Field, me: Integration, source: Value): Field {
    if d == ManualOnly then f.(base := f.base[me := None])
    else
      match Decide(p, d, kept, f, me, source)
      case Retain => f.(base := f.base[me := OwnBaseline(f, me)])
      case RetainAndReport =>
        f.(base := f.base[me := if source == f.stored then Some(f.stored) else OwnBaseline(f, me)])
      case Overwrite => Field(source, f.base[me := Some(source)])
  }

  lemma SyncTouchesOwnBaseline(p: Priority, d: Direction, kept: Option<Value>, f: Field, me: Integration, source: Value)
    ensures var g := Sync(p, d, kept, f, me, source);
            me in g.base && g.base == f.base[me := g.base[me]]
  {
  }

  // The direction each integration's mapping gives the field.
  type Directions = Integration -> Direction

  // The integration has a value for the field and its mapping lets it write one.
  predicate Sends(d: Directions, src: Integration -> Value, i: Integration) {
    d(i) != ManualOnly && !IsEmpty(src(i))
  }

  // A run of syncs in the given order, every integration sending a fixed source.
  function Run(p: Priority, d: Directions, src: Integration -> Value, f: Field, order: seq<Integration>): Field {
    if order == [] then f
    else
      var n := |order| - 1;
      var me := order[n];
      Sync(p, d(me), None, Run(p, d, src, f, order[..n]), me, src(me))
  }

  lemma SyncBinds(p: Priority, d: Direction, kept: Option<Value>, f: Field, me: Integration, source: Value)
    ensures Sync(p, d, kept, f, me, source).base.Keys == f.base.Keys + {me}
  {
  }

  lemma BindsOneMore(order: seq<Integration>, front: seq<Integration>, last: Integration)
    requires order == front + [last]
    ensures (set i | i in order) == (set i | i in front) + {last}
  {
  }

  lemma {:induction false} RunBinds(p: Priority, d: Directions, src: Integration -> Value, f: Field,
                                    order: seq<Integration>)
    ensures Run(p, d, src, f, order).base.Keys == f.base.Keys + set i | i in order
  {
    if order != [] {
      var n := |order| - 1;
      var front, me := order[..n], order[n];
      RunBinds(p, d, src, f, front);
      FrontAndLast(order, n);
      BindsOneMore(order, front, me);
      SyncBinds(p, d(me), None, Run(p, d, src, f, front), me, src(me));
    }
  }

  // --------------------------------------------------------------------
  // Convergence
  // --------------------------------------------------------------------

  // No integration is recorded as providing a value that its source, or its mapping,
  // has since dropped.
  ghost predicate NoRetractions(d: Directions, src: Integration -> Value, f: Field) {
    forall i | i in f.base :: Provides(f.base[i]) ==> Sends(d, src, i)
  }

  ghost predicate Wrote(d: Directions, src: Integration -> Value, f: Field, i: Integration) {
    && i in f.base && f.base[i] == Some(f.stored)
    && d(i) != ManualOnly && (IsEmpty(f.stored) ==> IsEmpty(src(i)))
  }

  // The stored value is not a person's: some bound integration wrote it last.
  ghost predicate Authored(d: Directions, src: Integration -> Value, f: Field) {
    f.stored == Null || exists i :: Wrote(d, src, f, i)
  }

  // Any state an asset without person edits is in while sources stand still.
  ghost predicate Live(d: Directions, src: Integration -> Value, f: Field) {
    NoRetractions(d, src, f) && Authored(d, src, f)
  }

  // The integrations of `all` that send a value and outrank every other such one.
  ghost predicate IsTop(p: Priority, d: Directions, src: Integration -> Value, all: set<Integration>, i: Integration) {
    i in all && Sends(d, src, i) && forall j | j in all && Sends(d, src, j) :: Rank(p, i) <= Rank(p, j)
  }

  // The last top integration to sync in `order`.
  ghost function LastTop(p: Priority, d: Directions, src: Integration -> Value, all: set<Integration>,
                         order: seq<Integration>): (r: Option<Integration>)
    ensures r.None? <==> forall i | i in order :: !IsTop(p, d, src, all, i)
    ensures r.Some? ==> r.value in order && IsTop(p, d, src, all, r.value)
  {
    if order == [] then None
    else
      var n := |order| - 1;
      assert order == order[..n] + [order[n]];
      if IsTop(p, d, src, all, order[n]) then Some(order[n]) else LastTop(p, d, src, all, order[..n])
  }

  ghost predicate Holds(src: Integration -> Value, f: Field, w: Integration) {
    w in f.base && f.base[w] == Some(src(w)) && f.stored == src(w)
  }

  lemma SyncKeepsLive(p: Priority, d: Directions, src: Integration -> Value, f: Field, me: Integration)
    requires Live(d, src, f)
    ensures Live(d, src, Sync(p, d(me), None, f, me, src(me)))
  {
    var g := Sync(p, d(me), None, f, me, src(me));
    if f.stored != Null {
      var a :| Wrote(d, src, f, a);
      if d(me) == ManualOnly || Decide(p, d(me), None, f, me, src(me)) != Overwrite {
        assert Wrote(d, src, g, a);
      } else {
        assert Wrote(d, src, g, me);
      }
    } else if d(me) != ManualOnly && Decide(p, d(me), None, f, me, src(me)) == Overwrite {
      assert Wrote(d, src, g, me);
    }
  }

  lemma TopWrites(p: Priority, d: Directions, src: Integration -> Value, f: Field, all: set<Integration>,
                  me: Integration)
    requires Live(d, src, f) && f.base.Keys <= all && IsTop(p, d, src, all, me)
    ensures Holds(src, Sync(p, d(me), None, f, me, src(me)), me)
  {
    if f.stored != Null {
      var a :| Wrote(d, src, f, a);
      if a != me { assert WrittenByOther(f, me) && HasOthers(f, me); }
    }
    if j :| j in f.base && OtherProvider(f, me, j) && Rank(p, j) < Rank(p, me) {
      assert false;
    }
  }

  lemma OthersYield(p: Priority, d: Directions, src: Integration -> Value, f: Field, all: set<Integration>,
                    w: Integration, me: Integration)
    requires me in all && IsTop(p, d, src, all, w) && !IsTop(p, d, src, all, me) && Holds(src, f, w)
    ensures Holds(src, Sync(p, d(me), None, f, me, src(me)), w)
  {
    assert OtherProvider(f, me, w) && HasOthers(f, me);
    if Sends(d, src, me) {
      var j :| j in all && Sends(d, src, j) && Rank(p, j) < Rank(p, me);
      assert Rank(p, w) < Rank(p, me);
      assert HigherProvides(p, f, me);
    }
  }

  // From any live state, whatever the order and the repeats: once a top
  // integration has synced, the field holds the source of the last one that did.
  lemma {:induction false} RunHoldsLastTop(p: Priority, d: Directions, src: Integration -> Value, f: Field,
                                           order: seq<Integration>, all: set<Integration>)
    requires Live(d, src, f)
    requires f.base.Keys <= all && forall i | i in order :: i in all
    ensures Live(d, src, Run(p, d, src, f, order))
    ensures var t := LastTop(p, d, src, all, order); t.Some? ==> Holds(src, Run(p, d, src, f, order), t.value)
  {
    if order != [] {
      var n := |order| - 1;
      var me := order[n];
      assert order == order[..n] + [me];
      RunHoldsLastTop(p, d, src, f, order[..n], all);
      RunBinds(p, d, src, f, order[..n]);
      var g := Run(p, d, src, f, order[..n]);
      SyncKeepsLive(p, d, src, g, me);
      if IsTop(p, d, src, all, me) {
        TopWrites(p, d, src, g, all, me);
      } else if LastTop(p, d, src, all, order).Some? {
        OthersYield(p, d, src, g, all, LastTop(p, d, src, all, order).value, me);
      }
    }
  }

  // Order independence: when the top integrations agree (in particular when
  // ranks are distinct, so there is only one), every run in which one of them
  // syncs ends with their value, and every longer run still holds it.
  lemma Converges(p: Priority, d: Directions, src: Integration -> Value, f: Field, order: seq<Integration>,
                  all: set<Integration>, h: Integration)
    requires Live(d, src, f)
    requires all == f.base.Keys + set i | i in order
    requires IsTop(p, d, src, all, h) && h in order
    requires forall i | IsTop(p, d, src, all, i) :: src(i) == src(h)
    ensures Run(p, d, src, f, order).stored == src(h)
  {
    RunHoldsLastTop(p, d, src, f, order, all);
  }

  lemma DistinctRanksHaveOneTop(p: Priority, d: Directions, src: Integration -> Value, all: set<Integration>,
                                h: Integration)
    requires IsTop(p, d, src, all, h)
    requires forall i, j | i in all && j in all && i != j :: Rank(p, i) != Rank(p, j)
    ensures forall i | IsTop(p, d, src, all, i) :: i == h
  {
    forall i | IsTop(p, d, src, all, i) ensures i == h {
      assert Rank(p, i) == Rank(p, h);
    }
  }

  // A run after which `all` is exactly what is bound, and in which a top one synced.
  ghost predicate Covers(p: Priority, d: Directions, src: Integration -> Value, f: Field, all: set<Integration>,
                         order: seq<Integration>) {
    && all == f.base.Keys + (set i | i in order)
    && LastTop(p, d, src, all, order).Some?
  }

  ghost predicate OrderIndependent(p: Priority, d: Directions, src: Integration -> Value, f: Field,
                                   all: set<Integration>) {
    forall r1, r2 | Covers(p, d, src, f, all, r1) && Covers(p, d, src, f, all, r2) ::
      Run(p, d, src, f, r1).stored == Run(p, d, src, f, r2).stored
  }

  lemma AgreementGivesOrderIndependence(p: Priority, d: Directions, src: Integration -> Value, f: Field,
                                        all: set<Integration>, h: Integration)
    requires Live(d, src, f) && f.base.Keys <= all && IsTop(p, d, src, all, h)
    requires forall i | IsTop(p, d, src, all, i) :: src(i) == src(h)
    ensures OrderIndependent(p, d, src, f, all)
  {
    forall r1, r2 | Covers(p, d, src, f, all, r1) && Covers(p, d, src, f, all, r2)
      ensures Run(p, d, src, f, r1).stored == Run(p, d, src, f, r2).stored
    {
      RunHoldsLastTop(p, d, src, f, r1, all);
      RunHoldsLastTop(p, d, src, f, r2, all);
    }
  }

  lemma DisagreementBreaksOrderIndependence(p: Priority, d: Directions, src: Integration -> Value, f: Field,
                                            all: set<Integration>, h: Integration, i: Integration)
    requires Live(d, src, f) && f.base.Keys <= all && IsTop(p, d, src, all, h)
    requires IsTop(p, d, src, all, i) && src(i) != src(h)
    ensures !OrderIndependent(p, d, src, f, all)
  {
    var r := Enumerate(all);
    EndsWithTop(p, d, src, f, r, all, i);
    EndsWithTop(p, d, src, f, r, all, h);
  }

  // The agreement is exactly what order independence needs: two top
  // integrations that disagree (unknown drivers, or two integrations of one
  // driver, share a rank) leave the value to whoever synced last.
  lemma OrderMattersExactlyOnDisagreement(p: Priority, d: Directions, src: Integration -> Value, f: Field,
                                          all: set<Integration>, h: Integration)
    requires Live(d, src, f) && f.base.Keys <= all && IsTop(p, d, src, all, h)
    ensures OrderIndependent(p, d, src, f, all) == forall i | IsTop(p, d, src, all, i) :: src(i) == src(h)
  {
    if forall i | IsTop(p, d, src, all, i) :: src(i) == src(h) {
      AgreementGivesOrderIndependence(p, d, src, f, all, h);
    } else {
      var i :| IsTop(p, d, src, all, i) && src(i) != src(h);
      DisagreementBreaksOrderIndependence(p, d, src, f, all, h, i);
    }
  }

  ghost function Enumerate(s: set<Integration>): (r: seq<Integration>)
    ensures forall i :: i in r <==> i in s
  {
    if s == {} then [] else
      var x :| x in s;
      var rest := Enumerate(s - {x});
      assert forall i :: i in [x] + rest <==> i == x || i in rest;
      [x] + rest
  }

  lemma EndsWithTop(p: Priority, d: Directions, src: Integration -> Value, f: Field, r: seq<Integration>,
                    all: set<Integration>, i: Integration)
    requires Live(d, src, f) && f.base.Keys <= all && IsTop(p, d, src, all, i)
    requires forall j :: j in r <==> j in all
    ensures Run(p, d, src, f, r + [i]).stored == src(i)
    ensures Covers(p, d, src, f, all, r + [i])
  {
    assert (r + [i])[..|r|] == r && (r + [i])[|r|] == i;
    assert LastTop(p, d, src, all, r + [i]) == Some(i);
    RunHoldsLastTop(p, d, src, f, r + [i], all);
  }

  // --------------------------------------------------------------------
  // Where convergence stops: retracted sources and an integration's own blank
  // --------------------------------------------------------------------

  // When a value the field does not hold yet gets in, if integrations alone wrote
  // the field: unless it is empty and another integration is on record as a
  // provider, or a higher one is (whether or not its source still has the value), or
  // the field holds a blank that only the writer itself put there while others are
  // bound.
  lemma SourceIsWrittenExactly(p: Priority, d: Direction, f: Field, me: Integration, source: Value)
    requires d != ManualOnly && source != f.stored
    requires f.stored == Null || exists i :: i in f.base && f.base[i] == Some(f.stored)
    ensures Sync(p, d, None, f, me, source).stored == source
       <==> && !(IsEmpty(source) && AnotherProvides(f, me))
            && (f.stored != Null ==>
                  && !HigherProvides(p, f, me)
                  && !(d == PreserveManual && HasOthers(f, me) && IsEmpty(f.stored) && !WrittenByOther(f, me)))
  {
    ProvidersAreOthers(p, f, me);
    if f.stored != Null {
      var i :| i in f.base && f.base[i] == Some(f.stored);
      assert i != me ==> HasOthers(f, me) && WrittenByOther(f, me);
    }
  }

  lemma ProvidersAreOthers(p: Priority, f: Field, me: Integration)
    ensures AnotherProvides(f, me) ==> HasOthers(f, me)
    ensures HigherProvides(p, f, me) ==> AnotherProvides(f, me)
  {
    if AnotherProvides(f, me) {
      var j :| j in f.base && OtherProvider(f, me, j);
      assert HasOthers(f, me);
    }
    if HigherProvides(p, f, me) {
      var j :| j in f.base && OtherProvider(f, me, j) && Rank(p, j) < Rank(p, me);
      assert AnotherProvides(f, me);
    }
  }

  // The only provider's own value follows its source, an empty one included,
  // whoever else is bound without a value.
  lemma LoneProviderIsFollowed(p: Priority, d: Direction, kept: Option<Value>, f: Field, me: Integration, source: Value)
    requires d != ManualOnly && kept != Some(source) && !AnotherProvides(f, me)
    requires me in f.base && f.base[me] == Some(f.stored) && !IsEmpty(f.stored)
    ensures var g := Sync(p, d, kept, f, me, source); g.stored == source && g.base[me] == Some(source)
  {
    ProvidersAreOthers(p, f, me);
  }

  // The stored value is the old one or the source, and the own baseline follows:
  // what is written is recorded, and what is kept leaves the record as it was unless
  // it is the source value itself.
  lemma BaselineFollowsTheWrite(p: Priority, d: Direction, kept: Option<Value>, f: Field, me: Integration,
                                source: Value)
    requires d != ManualOnly
    ensures var g := Sync(p, d, kept, f, me, source);
            && (g.stored == f.stored || g.stored == source)
            && (g.stored != f.stored ==> g.base[me] == Some(source))
            && (g.stored == f.stored != source ==> g.base[me] == OwnBaseline(f, me))
            && (source == f.stored ==> g.base[me] == if IsEmpty(source) && AnotherProvides(f, me)
                                                     then OwnBaseline(f, me) else Some(source))
  {
    ProvidersAreOthers(p, f, me);
  }

  // A manual_only mapping writes nothing and takes the integration off the record.
  lemma ManualOnlyLeavesTheRecord(p: Priority, kept: Option<Value>, f: Field, me: Integration, source: Value)
    ensures var g := Sync(p, ManualOnly, kept, f, me, source);
            && g.stored == f.stored && me in g.base && g.base[me] == None
            && forall j | j in f.base && j != me :: j in g.base && g.base[j] == f.base[j]
  {
  }

  // "Keep ours" speaks of one source value: for any other, and for a source_wins
  // mapping, the sync is the one without it.
  lemma KeptCountsOnlyAgainstItsSource(p: Priority, d: Direction, kept: Option<Value>, f: Field, me: Integration,
                                       source: Value)
    requires kept != Some(source) || d != PreserveManual
    ensures Sync(p, d, kept, f, me, source) == Sync(p, d, None, f, me, source)
  {
  }

  // The documentation promises that the highest integration that HAS a value
  // fills the field. Once the top source has gone empty while a lower one is on
  // record as a provider, the old value stays for ever.
  lemma {:induction false} RetractedValueSticks(p: Priority, d: Directions, src: Integration -> Value, f: Field,
                                                order: seq<Integration>)
    requires d(0) != ManualOnly && d(1) != ManualOnly && Rank(p, 0) < Rank(p, 1)
    requires src(0) == Null && src(1) == Data(2)
    requires f == Field(Data(1), map[0 := Some(Data(1)), 1 := Some(Data(2))])
    requires forall i | i in order :: i == 0 || i == 1
    ensures Run(p, d, src, f, order) == f
  {
    if order != [] {
      var n := |order| - 1;
      assert forall i | i in order[..n] :: i in order;
      assert order[n] in order;
      RetractedValueSticks(p, d, src, f, order[..n]);
      assert 0 in f.base && 1 in f.base;
      assert OtherProvider(f, 0, 1) && OtherProvider(f, 1, 0);
      assert HasOthers(f, 0) && HasOthers(f, 1) && AnotherProvides(f, 0) && HigherProvides(p, f, 1);
      assert f.base[0 := f.base[0]] == f.base && f.base[1 := f.base[1]] == f.base;
    }
  }

  // An integration that once wrote an empty list can no longer write a value
  // while a second integration is bound, even though it alone wrote the field.
  lemma {:induction false} OwnBlankLocksOut(p: Priority, d: Directions, src: Integration -> Value, f: Field,
                                            order: seq<Integration>)
    requires d(0) == PreserveManual && src(0) == Data(1) && src(1) == Null
    requires f == Field(EmptyList, map[0 := Some(EmptyList), 1 := None])
    requires forall i | i in order :: i == 0
    ensures Run(p, d, src, f, order) == f
  {
    if order != [] {
      var n := |order| - 1;
      assert forall i | i in order[..n] :: i in order;
      assert order[n] in order;
      OwnBlankLocksOut(p, d, src, f, order[..n]);
      assert 1 in f.base && HasOthers(f, 0);
      assert f.base[0 := f.base[0]] == f.base;
    }
  }

  // --------------------------------------------------------------------
  // A person's value
  // --------------------------------------------------------------------

  // A value no bound integration is on record for.
  ghost predicate PersonOwned(f: Field) {
    f.stored != Null && forall i | i in f.base :: f.base[i] != Some(f.stored)
  }

  // Syncs with sources that may change from step to step.
  datatype Step = Step(who: Integration, source: Value, kept: Option<Value>)

  function RunSteps(p: Priority, f: Field, steps: seq<Step>): Field {
    if steps == [] then f
    else
      var n := |steps| - 1;
      Sync(p, PreserveManual, steps[n].kept, RunSteps(p, f, steps[..n]), steps[n].who, steps[n].source)
  }

  // Unless an integration is bound for the first time, and alone.
  lemma SyncKeepsPersonsValue(p: Priority, kept: Option<Value>, f: Field, me: Integration, source: Value)
    requires PersonOwned(f)
    ensures var g := Sync(p, PreserveManual, kept, f, me, source);
            && (g.stored == f.stored <==> f.base != map[] || source == f.stored)
            && (forall j | j in f.base && j != me :: j in g.base && g.base[j] == f.base[j])
            && (f.base != map[] ==>
                  g.base[me] == (if source == f.stored && !(AnotherProvides(f, me) && IsEmpty(source))
                                 then Some(f.stored) else OwnBaseline(f, me)))
  {
    if WrittenByOther(f, me) { assert false; }
    if f.base != map[] && !HasOthers(f, me) { assert me in f.base by { var j :| j in f.base; } }
    if HasOthers(f, me) { var j :| j in f.base && j != me; }
  }

  // The value survives every run of syncs by bound integrations of which none
  // sends that very value, and leaves every baseline as it was.
  lemma {:induction false} PersonsValueSurvives(p: Priority, f: Field, steps: seq<Step>)
    requires PersonOwned(f)
    requires forall s | s in steps :: s.who in f.base && s.source != f.stored
    ensures RunSteps(p, f, steps) == f
  {
    if steps != [] {
      var n := |steps| - 1;
      var s := steps[n];
      assert steps == steps[..n] + [s];
      PersonsValueSurvives(p, f, steps[..n]);
      SyncKeepsPersonsValue(p, s.kept, f, s.who, s.source);
      var g := Sync(p, PreserveManual, s.kept, f, s.who, s.source);
      assert g.base == f.base;
    }
  }

  // A non-empty person's value is adopted as a baseline exactly by the
  // integration that sends it, and only that baseline changes.
  lemma AdoptsExactlyOnEqualSource(p: Priority, kept: Option<Value>, f: Field, me: Integration, source: Value)
    requires PersonOwned(f) && me in f.base && !IsEmpty(f.stored)
    ensures var g := Sync(p, PreserveManual, kept, f, me, source);
            && g.stored == f.stored
            && (source == f.stored <==> g.base[me] == Some(f.stored))
            && (forall j | j in f.base && j != me :: g.base[j] == f.base[j])
  {
    SyncKeepsPersonsValue(p, kept, f, me, source);
  }

  // After the adoption the value counts as the integration's own, so its next
  // different value replaces it.
  lemma AdoptedValueIsReplaced(p: Priority, f: Field, me: Integration, next: Value)
    requires PersonOwned(f) && f.base.Keys == {me} && !IsEmpty(f.stored)
    ensures var g := Sync(p, PreserveManual, None, f, me, f.stored);
            Sync(p, PreserveManual, None, g, me, next).stored == next
  {
    AdoptsExactlyOnEqualSource(p, None, f, me, f.stored);
    assert !HasOthers(f, me);
  }

  // Putting back a value some integration last wrote ends the person's claim:
  // the field is live again, so Converges applies to it.
  lemma RevertingResumesSync(d: Directions, src: Integration -> Value, f: Field, i: Integration)
    requires NoRetractions(d, src, f) && i in f.base && Provides(f.base[i])
    ensures Live(d, src, f.(stored := f.base[i].value))
  {
    assert Wrote(d, src, f.(stored := f.base[i].value), i);
  }

  // "Keep ours" is documented as never writing the field while the source still
  // sends the value it was made against. In every direction it holds exactly when
  // the field is not empty and either a higher integration is on record as a
  // provider, or the direction is preserve_manual and the field is not merely the
  // lone integration's own baseline; or when an empty source meets another provider.
  lemma KeepOursHoldsExactly(p: Priority, d: Direction, f: Field, me: Integration, source: Value)
    requires d != ManualOnly && source != f.stored
    ensures Sync(p, d, Some(source), f, me, source).stored == f.stored
        <==> || (AnotherProvides(f, me) && IsEmpty(source))
             || (f.stored != Null && HigherProvides(p, f, me))
             || (d == PreserveManual && f.stored != Null && !FollowsAlone(f, me))
  {
    ProvidersAreOthers(p, f, me);
  }

  // The integration is alone on the asset and the field holds its own baseline, or
  // it has never been bound before.
  predicate FollowsAlone(f: Field, me: Integration) {
    !HasOthers(f, me) && (me !in f.base || f.base[me] == Some(f.stored))
  }

  // A source_wins mapping of a higher integration overwrites the kept value.
  lemma KeepOursFailsForSourceWins(p: Priority, f: Field)
    requires Rank(p, 1) < Rank(p, 0) && f == Field(Data(1), map[0 := Some(Data(1)), 1 := Some(Data(3))])
    ensures Sync(p, SourceWins, Some(Data(2)), f, 1, Data(2)).stored == Data(2)
  {
    assert forall j | j in f.base && OtherProvider(f, 1, j) :: j == 0;
  }
}
