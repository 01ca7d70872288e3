// The version rows of one article as the service's queries see them: rows in
// the order they were inserted, found again by number and draft flag
// (apps/api/src/articles/articles.service.ts).
module VersionLog {
  import opened Basics

  datatype Version<P> = Version(number: nat, isDraft: bool, snapshot: P)

  // --------------------------------------------------------------------
  // Queries
  // --------------------------------------------------------------------

  predicate HasDraft<P>(vs: seq<Version<P>>) { exists k | 0 <= k < |vs| :: vs[k].isDraft }

  function DraftIndex<P>(vs: seq<Version<P>>): (k: nat)
    requires HasDraft(vs)
    ensures k < |vs| && vs[k].isDraft && forall j | 0 <= j < k :: !vs[j].isDraft
  {
    if vs[0].isDraft then 0 else
      assert HasDraft(vs[1..]) by { var k :| 0 <= k < |vs| && vs[k].isDraft; assert vs[1..][k - 1].isDraft; }
      1 + DraftIndex(vs[1..])
  }

  function MaxNumber<P>(vs: seq<Version<P>>): (m: nat)
    ensures forall k | 0 <= k < |vs| :: vs[k].number <= m
    ensures m == 0 || exists k :: 0 <= k < |vs| && vs[k].number == m
  {
    if vs == [] then 0 else Max(MaxNumber(vs[..|vs| - 1]), vs[|vs| - 1].number)
  }

  // The index of the published row with the highest number.
  function LatestPublished<P>(vs: seq<Version<P>>): (r: Option<nat>)
    ensures r.None? <==> forall k | 0 <= k < |vs| :: vs[k].isDraft
    ensures r.Some? ==> r.value < |vs| && !vs[r.value].isDraft
    ensures r.Some? ==> forall k | 0 <= k < |vs| && !vs[k].isDraft :: vs[k].number <= vs[r.value].number
  {
    if vs == [] then None
    else
      var n := |vs| - 1;
      var rest := LatestPublished(vs[..n]);
      if vs[n].isDraft || (rest.Some? && vs[rest.value].number > vs[n].number) then rest else Some(n)
  }

  // The published row numbered `number`.
  function FindPublished<P>(vs: seq<Version<P>>, number: nat): (r: Option<nat>)
    ensures r.None? <==> forall k | 0 <= k < |vs| :: vs[k].isDraft || vs[k].number != number
    ensures r.Some? ==> r.value < |vs| && !vs[r.value].isDraft && vs[r.value].number == number
  {
    if vs == [] then None
    else if !vs[0].isDraft && vs[0].number == number then Some(0)
    else
      var rest := FindPublished(vs[1..], number);
      if rest.Some? then Some(rest.value + 1) else None
  }

  function Published<P>(vs: seq<Version<P>>): seq<Version<P>> {
    if vs == [] then []
    else
      var v := vs[|vs| - 1];
      Published(vs[..|vs| - 1]) + (if v.isDraft then [] else [v])
  }

  // --------------------------------------------------------------------
  // Writes
  // --------------------------------------------------------------------

  function Append<P>(vs: seq<Version<P>>, snapshot: P, draft: bool): seq<Version<P>> {
    vs + [Version(MaxNumber(vs) + 1, draft, snapshot)]
  }

  // Rewrites the draft row in place; with `draft` false this publishes it.
  function Amend<P>(vs: seq<Version<P>>, snapshot: P, draft: bool): seq<Version<P>>
    requires HasDraft(vs)
  {
    var k := DraftIndex(vs);
    vs[k := Version(vs[k].number, draft, snapshot)]
  }

  function DropDraft<P>(vs: seq<Version<P>>): seq<Version<P>>
    requires HasDraft(vs)
  {
    var k := DraftIndex(vs);
    vs[..k] + vs[k + 1..]
  }

  // --------------------------------------------------------------------
  // A log only people have written: 1..n, only n can be a draft
  // --------------------------------------------------------------------

  ghost predicate Tidy<P>(vs: seq<Version<P>>) {
    && |vs| > 0 && !vs[0].isDraft
    && (forall k | 0 <= k < |vs| :: vs[k].number == k + 1)
    && (forall k | 0 <= k < |vs| - 1 :: !vs[k].isDraft)
  }

  function Newest<P>(vs: seq<Version<P>>): Version<P>
    requires vs != []
  {
    vs[|vs| - 1]
  }

  lemma TidyDraft<P>(vs: seq<Version<P>>)
    requires Tidy(vs)
    ensures HasDraft(vs) <==> Newest(vs).isDraft
    ensures HasDraft(vs) ==> DraftIndex(vs) == |vs| - 1 && |vs| >= 2
    ensures MaxNumber(vs) == |vs|
  {
    assert vs[|vs| - 1].number == |vs|;
  }

  lemma PublishedAfterFront<P>(vs: seq<Version<P>>, front: seq<Version<P>>, last: Version<P>)
    requires vs == front + [last] && forall k | 0 <= k < |front| :: !front[k].isDraft
    ensures Published(vs) == if last.isDraft then front else vs
  {
    assert vs[..|vs| - 1] == front;
    PublishedAllWithoutDraft(front);
  }

  lemma TidyFront<P>(vs: seq<Version<P>>, front: seq<Version<P>>)
    requires Tidy(vs) && front == vs[..|vs| - 1]
    ensures forall k | 0 <= k < |front| :: !front[k].isDraft
  {
  }

  lemma TidyPublished<P>(vs: seq<Version<P>>)
    requires Tidy(vs)
    ensures Published(vs) == if Newest(vs).isDraft then vs[..|vs| - 1] else vs
  {
    FrontAndLast(vs, |vs| - 1);
    TidyFront(vs, vs[..|vs| - 1]);
    PublishedAfterFront(vs, vs[..|vs| - 1], Newest(vs));
  }

  lemma TidyLatest<P>(vs: seq<Version<P>>)
    requires Tidy(vs)
    ensures LatestPublished(vs) == Some(if Newest(vs).isDraft then |vs| - 2 else |vs| - 1)
  {
    var n := |vs|;
    if Newest(vs).isDraft {
      assert !vs[n - 2].isDraft && vs[n - 2].number == n - 1;
    } else {
      assert vs[n - 1].number == n;
    }
    var l := LatestPublished(vs).value;
    assert vs[l].number == l + 1;
  }

  lemma {:induction false} PublishedAllWithoutDraft<P>(vs: seq<Version<P>>)
    requires forall k | 0 <= k < |vs| :: !vs[k].isDraft
    ensures Published(vs) == vs
  {
    if vs != [] { PublishedAllWithoutDraft(vs[..|vs| - 1]); }
  }

  lemma TidyAppend<P>(vs: seq<Version<P>>, snapshot: P, draft: bool)
    requires Tidy(vs) && !HasDraft(vs)
    ensures Append(vs, snapshot, draft) == vs + [Version(|vs| + 1, draft, snapshot)]
    ensures Tidy(Append(vs, snapshot, draft))
  {
    TidyDraft(vs);
  }

  lemma TidyAmend<P>(vs: seq<Version<P>>, snapshot: P, draft: bool)
    requires Tidy(vs) && HasDraft(vs)
    ensures Amend(vs, snapshot, draft) == vs[..|vs| - 1] + [Version(|vs|, draft, snapshot)]
    ensures Tidy(Amend(vs, snapshot, draft))
  {
    TidyDraft(vs);
  }

  lemma TidyDropDraft<P>(vs: seq<Version<P>>)
    requires Tidy(vs) && HasDraft(vs)
    ensures DropDraft(vs) == vs[..|vs| - 1] && |vs| >= 2
    ensures Tidy(DropDraft(vs)) && !HasDraft(DropDraft(vs))
  {
    TidyDraft(vs);
  }

  // --------------------------------------------------------------------
  // A log integrations have written too
  // --------------------------------------------------------------------

  ghost predicate Sound<P>(vs: seq<Version<P>>) {
    && (forall i, j | 0 <= i < j < |vs| :: vs[i].number != vs[j].number)
    && (forall i, j | 0 <= i < j < |vs| :: !(vs[i].isDraft && vs[j].isDraft))
    && exists k :: 0 <= k < |vs| && !vs[k].isDraft
  }

  // Every published row of `was` is still there, unchanged.
  ghost predicate KeepsPublished<P>(was: seq<Version<P>>, now: seq<Version<P>>) {
    forall k | 0 <= k < |was| && !was[k].isDraft :: was[k] in now
  }

  lemma SoundAppend<P>(vs: seq<Version<P>>, snapshot: P, draft: bool)
    requires Sound(vs) && (draft ==> !HasDraft(vs))
    ensures Sound(Append(vs, snapshot, draft)) && KeepsPublished(vs, Append(vs, snapshot, draft))
  {
    var k :| 0 <= k < |vs| && !vs[k].isDraft;
    assert !Append(vs, snapshot, draft)[k].isDraft;
  }

  lemma SoundAmend<P>(vs: seq<Version<P>>, snapshot: P, draft: bool)
    requires Sound(vs) && HasDraft(vs)
    ensures Sound(Amend(vs, snapshot, draft)) && KeepsPublished(vs, Amend(vs, snapshot, draft))
  {
    var r := Amend(vs, snapshot, draft);
    forall k | 0 <= k < |vs| && !vs[k].isDraft ensures vs[k] in r && !r[k].isDraft { assert r[k] == vs[k]; }
  }

  // Row k of the log is row k of what is left, or the one before it.
  function PlaceAfterDrop<P>(vs: seq<Version<P>>, k: nat): nat
    requires HasDraft(vs) && k < |vs| && !vs[k].isDraft
  {
    if k < DraftIndex(vs) then k else k - 1
  }

  lemma DroppedRows<P>(vs: seq<Version<P>>, r: seq<Version<P>>, d: nat)
    requires HasDraft(vs) && r == DropDraft(vs) && d == DraftIndex(vs)
    ensures |r| == |vs| - 1 && forall i | 0 <= i < |r| :: r[i] == vs[if i < d then i else i + 1]
  {
    WithoutAt(vs, d, r);
  }

  lemma PlacedRow<P>(vs: seq<Version<P>>, r: seq<Version<P>>, k: nat)
    requires HasDraft(vs) && r == DropDraft(vs) && k < |vs| && !vs[k].isDraft
    ensures PlaceAfterDrop(vs, k) < |r| && r[PlaceAfterDrop(vs, k)] == vs[k]
  {
    DroppedRows(vs, r, DraftIndex(vs));
  }

  // With its only draft gone a log holds the published rows and no others.
  lemma DropKeepsPublished<P>(vs: seq<Version<P>>, r: seq<Version<P>>)
    requires HasDraft(vs) && r == DropDraft(vs)
    ensures KeepsPublished(vs, r)
    ensures (exists k :: 0 <= k < |vs| && !vs[k].isDraft) ==> exists k :: 0 <= k < |r| && !r[k].isDraft
  {
    forall k: nat | k < |vs| && !vs[k].isDraft
      ensures vs[k] in r && exists i :: 0 <= i < |r| && !r[i].isDraft
    {
      PlacedRow(vs, r, k);
    }
  }

  lemma DropKeepsDifferences<P>(vs: seq<Version<P>>, r: seq<Version<P>>)
    requires Sound(vs) && HasDraft(vs) && r == DropDraft(vs)
    ensures forall i, j | 0 <= i < j < |r| :: r[i].number != r[j].number
    ensures forall i | 0 <= i < |r| :: !r[i].isDraft
  {
    DroppedRows(vs, r, DraftIndex(vs));
  }

  lemma SoundDropDraft<P>(vs: seq<Version<P>>)
    requires Sound(vs) && HasDraft(vs)
    ensures Sound(DropDraft(vs)) && KeepsPublished(vs, DropDraft(vs)) && !HasDraft(DropDraft(vs))
  {
    DropKeepsPublished(vs, DropDraft(vs));
    DropKeepsDifferences(vs, DropDraft(vs));
  }
}
