// Following a path into a JSON value, and listing every path to a single value
// (packages/shared/src/custom-api-path.ts).
module PathScalars {
  import opened Basics
  import opened Text
  import opened PathGrammar
  import opened PathTheorems

  // A parsed JSON document; the members of an object are in Object.keys order.
  datatype Json =
    | Null
    | Bool(b: bool)
    | Num(n: int)
    | Str(s: string)
    | Arr(items: seq<Json>)
    | Obj(members: seq<Member>)

  datatype Member = Member(key: string, value: Json)

  predicate IsScalar(v: Json) { !v.Arr? && !v.Obj? }

  // --------------------------------------------------------------------
  // The children of a value
  // --------------------------------------------------------------------

  function ChildCount(v: Json): nat {
    if v.Arr? then |v.items| else if v.Obj? then |v.members| else 0
  }

  function ChildPart(v: Json, k: nat): Part
    requires k < ChildCount(v)
  {
    if v.Arr? then Index(k) else Key(v.members[k].key)
  }

  function ChildValue(v: Json, k: nat): (child: Json)
    requires k < ChildCount(v)
    ensures child < v
  {
    if v.Arr? then v.items[k] else v.members[k].value
  }

  // No object names a key twice, anywhere inside.
  ghost predicate KeysAreDistinct(v: Json) {
    && (forall i, j | 0 <= i < j < ChildCount(v) :: ChildPart(v, i) != ChildPart(v, j))
    && (forall k | 0 <= k < ChildCount(v) :: KeysAreDistinct(ChildValue(v, k)))
  }

  // --------------------------------------------------------------------
  // Following a path
  // --------------------------------------------------------------------

  function MemberIndex(members: seq<Member>, key: string): (i: int)
    ensures i == -1 ==> forall k | 0 <= k < |members| :: members[k].key != key
    ensures i != -1 ==> 0 <= i < |members| && members[i].key == key
  {
    if members == [] then -1
    else
      var last := |members| - 1;
      if members[last].key == key then last else MemberIndex(members[..last], key)
  }

  function Step(v: Json, part: Part): Option<Json> {
    match part
    case Index(n) => if v.Arr? && n < |v.items| then Some(v.items[n]) else None
    case Key(name) =>
      if !v.Obj? || name in FORBIDDEN_KEYS then None
      else
        var i := MemberIndex(v.members, name);
        if i == -1 then None else Some(v.members[i].value)
  }

  function Resolve(v: Json, parts: seq<Part>): Option<Json> {
    if parts == [] then Some(v)
    else match Step(v, parts[0])
      case None => None
      case Some(child) => Resolve(child, parts[1..])
  }

  // A step goes to the child the part names, and never to a forbidden key's.
  lemma StepExactly(v: Json, part: Part, child: Json)
    requires KeysAreDistinct(v)
    ensures Step(v, part) == Some(child)
       <==> && (exists k: nat :: k < ChildCount(v) && ChildPart(v, k) == part && ChildValue(v, k) == child)
            && (part.Key? ==> part.name !in {"__proto__", "prototype", "constructor"})
  {
    if Step(v, part) == Some(child) {
      var k := if part.Index? then part.n else MemberIndex(v.members, part.name);
      assert ChildPart(v, k) == part && ChildValue(v, k) == child;
    }
    if part.Key? && v.Obj? {
      var i := MemberIndex(v.members, part.name);
      assert i != -1 ==> ChildPart(v, i) == part;
      forall k: nat | k < ChildCount(v) && ChildPart(v, k) == part ensures i == k {
        assert v.members[k].key == part.name;
      }
    }
  }

  method ResolvePath(root: Json, parts: seq<Part>) returns (r: Option<Json>)
    ensures r == Resolve(root, parts)
  {
    var current := root;
    assert parts[0..] == parts;
    for n := 0 to |parts|
      invariant Resolve(root, parts) == Resolve(current, parts[n..])
    {
      assert parts[n..][1..] == parts[n + 1..];
      var next := Step(current, parts[n]);
      if next.None? { return None; }
      current := next.value;
    }
    return Some(current);
  }

  // --------------------------------------------------------------------
  // Listing
  // --------------------------------------------------------------------

  datatype Entry = Entry(parts: seq<Part>, path: string, value: Json)

  predicate Listable(part: Part) { part.Key? ==> LegalKey(part.name) }

  // Every entry below `v`, which stands at `parts`, with no limit on their number.
  function Entries(v: Json, parts: seq<Part>, maxDepth: int): seq<Entry>
    decreases v, ChildCount(v) + 1
  {
    if IsScalar(v) then
      if parts == [] || |Format(parts)| > MAX_LENGTH then [] else [Entry(parts, Format(parts), v)]
    else if |parts| >= maxDepth then []
    else Gather(v, ChildCount(v), parts, maxDepth)
  }

  // The entries below the first `k` children.
  function Gather(v: Json, k: nat, parts: seq<Part>, maxDepth: int): seq<Entry>
    requires k <= ChildCount(v)
    decreases v, k
  {
    if k == 0 then []
    else
      Gather(v, k - 1, parts, maxDepth) + FromChild(v, k - 1, parts, maxDepth)
  }

  function FromChild(v: Json, k: nat, parts: seq<Part>, maxDepth: int): seq<Entry>
    requires k < ChildCount(v)
    decreases v, k
  {
    var part := ChildPart(v, k);
    if Listable(part) then Entries(ChildValue(v, k), parts + [part], maxDepth) else []
  }

  function Capped(entries: seq<Entry>, most: nat): seq<Entry> {
    if |entries| <= most then entries else entries[..most]
  }

  lemma CappedAppend(a: seq<Entry>, b: seq<Entry>, most: nat)
    ensures Capped(Capped(a, most) + b, most) == Capped(a + b, most)
    ensures |Capped(a, most)| >= most ==> Capped(a + b, most) == Capped(a, most)
  {
  }

  lemma CappedNext(before: seq<Entry>, gathered: seq<Entry>, below: seq<Entry>, found: seq<Entry>, most: nat)
    requires found == Capped(before + gathered, most)
    ensures Capped(found + below, most) == Capped(before + (gathered + below), most)
    ensures |found| >= most ==> Capped(before + (gathered + below), most) == found
  {
    Reassociate(before, gathered, below);
    CappedAppend(before + gathered, below, most);
  }

  // The list being collected; `Visit` is the recursive closure of the source.
  class ScalarList {
    var found: seq<Entry>
    const maxEntries: nat
    const maxDepth: int

    constructor (maxEntries: nat, maxDepth: int)
      ensures found == [] && this.maxEntries == maxEntries && this.maxDepth == maxDepth
    {
      found := [];
      this.maxEntries := maxEntries;
      this.maxDepth := maxDepth;
    }

    method Visit(v: Json, parts: seq<Part>)
      requires |found| <= maxEntries
      modifies this`found
      ensures found == Capped(old(found) + Entries(v, parts, maxDepth), maxEntries)
      decreases v, 1
    {
      CappedAppend(found, Entries(v, parts, maxDepth), maxEntries);
      if |found| >= maxEntries { return; }
      if IsScalar(v) {
        if parts == [] { return; }
        var path := Format(parts);
        if |path| > MAX_LENGTH { return; }
        found := found + [Entry(parts, path, v)];
        return;
      }
      if |parts| >= maxDepth { return; }
      if v.Arr? { VisitItems(v, parts); } else { VisitMembers(v, parts); }
    }

    method VisitItems(v: Json, parts: seq<Part>)
      requires v.Arr? && |found| <= maxEntries
      modifies this`found
      ensures found == Capped(old(found) + Gather(v, ChildCount(v), parts, maxDepth), maxEntries)
      decreases v, 0
    {
      ghost var before := found;
      var index := 0;
      while index < |v.items| && |found| < maxEntries
        invariant index <= |v.items| && |found| <= maxEntries
        invariant found == Capped(before + Gather(v, index, parts, maxDepth), maxEntries)
      {
        ghost var gathered, below := Gather(v, index, parts, maxDepth), FromChild(v, index, parts, maxDepth);
        CappedNext(before, gathered, below, found, maxEntries);
        assert below == Entries(v.items[index], parts + [Index(index)], maxDepth);
        Visit(v.items[index], parts + [Index(index)]);
        index := index + 1;
        assert Gather(v, index, parts, maxDepth) == gathered + below;
      }
      GatherFrom(v, index, parts, maxDepth, before, maxEntries, found);
    }

    method VisitMembers(v: Json, parts: seq<Part>)
      requires v.Obj? && |found| <= maxEntries
      modifies this`found
      ensures found == Capped(old(found) + Gather(v, ChildCount(v), parts, maxDepth), maxEntries)
      decreases v, 0
    {
      for n := 0 to |v.members|
        invariant |found| <= maxEntries
        invariant found == Capped(old(found) + Gather(v, n, parts, maxDepth), maxEntries)
      {
        if |found| >= maxEntries {
          GatherFrom(v, n, parts, maxDepth, old(found), maxEntries, found);
          return;
        }
        GatherMember(v, n, parts, maxDepth, old(found), maxEntries, found);
        var key := v.members[n].key;
        if key in FORBIDDEN_KEYS || key == "" { continue; }
        Visit(v.members[n].value, parts + [Key(key)]);
      }
    }
  }

  // What one more member adds to the list: nothing under a key that is not listed.
  lemma GatherMember(v: Json, n: nat, parts: seq<Part>, maxDepth: int, before: seq<Entry>, most: nat,
                     found: seq<Entry>)
    requires v.Obj? && n < |v.members| && found == Capped(before + Gather(v, n, parts, maxDepth), most)
    ensures var key, all := v.members[n].key, Capped(before + Gather(v, n + 1, parts, maxDepth), most);
            if key in FORBIDDEN_KEYS || key == "" then found == all
            else Capped(found + Entries(v.members[n].value, parts + [Key(key)], maxDepth), most) == all
  {
    var key := v.members[n].key;
    CappedNext(before, Gather(v, n, parts, maxDepth), FromChild(v, n, parts, maxDepth), found, most);
    if key in FORBIDDEN_KEYS || key == "" {
      NothingMore(found, FromChild(v, n, parts, maxDepth), before + Gather(v, n, parts, maxDepth), most);
    }
  }

  lemma NothingMore(found: seq<Entry>, more: seq<Entry>, all: seq<Entry>, most: nat)
    requires found == Capped(all, most) && more == []
    ensures Capped(found + more, most) == found
  {
    assert found + more == found;
  }

  // A full list takes nothing from the children that are left.
  lemma {:induction false} GatherFrom(v: Json, k: nat, parts: seq<Part>, maxDepth: int, before: seq<Entry>, most: nat,
                                      found: seq<Entry>)
    requires k <= ChildCount(v) && found == Capped(before + Gather(v, k, parts, maxDepth), most)
    requires k == ChildCount(v) || |found| >= most
    ensures found == Capped(before + Gather(v, ChildCount(v), parts, maxDepth), most)
    decreases ChildCount(v) - k
  {
    if k < ChildCount(v) {
      CappedNext(before, Gather(v, k, parts, maxDepth), FromChild(v, k, parts, maxDepth), found, most);
      GatherFrom(v, k + 1, parts, maxDepth, before, most, found);
    }
  }

  method ListScalarPaths(root: Json, maxEntries: nat, maxDepth: int) returns (entries: seq<Entry>)
    ensures entries == Capped(Entries(root, [], Min(maxDepth, MAX_PARTS)), maxEntries)
  {
    var list := new ScalarList(maxEntries, Min(maxDepth, MAX_PARTS));
    list.Visit(root, []);
    assert [] + Entries(root, [], list.maxDepth) == Entries(root, [], list.maxDepth);
    entries := list.found;
  }

  // --------------------------------------------------------------------
  // What is listed
  // --------------------------------------------------------------------

  // `e` is a scalar below `v`, which stands at `parts`, at most `maxDepth` parts deep.
  ghost predicate Leads(v: Json, parts: seq<Part>, maxDepth: int, e: Entry) {
    && |parts| <= |e.parts| && e.parts[..|parts|] == parts
    && e.parts != [] && (e.parts == parts || |e.parts| <= maxDepth)
    && (forall k | |parts| <= k < |e.parts| :: Listable(e.parts[k]))
    && Resolve(v, e.parts[|parts|..]) == Some(e.value) && IsScalar(e.value)
    && e.path == Format(e.parts) && |e.path| <= MAX_LENGTH
  }

  lemma StepIsChild(v: Json, k: nat)
    requires KeysAreDistinct(v) && k < ChildCount(v) && Listable(ChildPart(v, k))
    ensures Step(v, ChildPart(v, k)) == Some(ChildValue(v, k))
  {
    if v.Obj? {
      var i := MemberIndex(v.members, v.members[k].key);
      assert ChildPart(v, i) == ChildPart(v, k);
    }
  }

  lemma ChildOfStep(v: Json, part: Part) returns (k: nat)
    requires Step(v, part).Some?
    ensures k < ChildCount(v) && ChildPart(v, k) == part
  {
    k := if part.Index? then part.n else MemberIndex(v.members, part.name);
  }

  lemma ResolvesThroughChild(v: Json, k: nat, parts: seq<Part>)
    requires KeysAreDistinct(v) && k < ChildCount(v) && Listable(ChildPart(v, k))
    requires parts != [] && parts[0] == ChildPart(v, k)
    ensures Resolve(v, parts) == Resolve(ChildValue(v, k), parts[1..])
  {
    StepIsChild(v, k);
  }

  lemma LeadsThroughChild(v: Json, k: nat, parts: seq<Part>, maxDepth: int, e: Entry)
    requires KeysAreDistinct(v) && k < ChildCount(v) && |parts| < maxDepth
    ensures var part := ChildPart(v, k);
            Listable(part) && Leads(ChildValue(v, k), parts + [part], maxDepth, e)
            <==> Leads(v, parts, maxDepth, e) && |e.parts| > |parts| && e.parts[|parts|] == part
  {
    var n, part := |parts|, ChildPart(v, k);
    if |e.parts| > n && e.parts[n] == part {
      assert e.parts[..n + 1] == e.parts[..n] + [part];
      assert e.parts[..n + 1][..n] == e.parts[..n] && (parts + [part])[..n] == parts;
      assert e.parts[n..][1..] == e.parts[n + 1..] && e.parts[n..][0] == part;
      if Listable(part) { ResolvesThroughChild(v, k, e.parts[n..]); }
    } else if |e.parts| > n {
      assert e.parts[..n + 1][n] == e.parts[n] && (parts + [part])[n] == part;
    }
  }

  // The entry goes through one of the first `k` children.
  ghost predicate GoesThrough(v: Json, k: nat, parts: seq<Part>, e: Entry)
    requires k <= ChildCount(v)
  {
    |e.parts| > |parts| && exists i | 0 <= i < k :: e.parts[|parts|] == ChildPart(v, i)
  }

  lemma GoesThroughOneMore(v: Json, k: nat, parts: seq<Part>, e: Entry)
    requires k < ChildCount(v)
    ensures GoesThrough(v, k + 1, parts, e)
         == (GoesThrough(v, k, parts, e) || (|e.parts| > |parts| && e.parts[|parts|] == ChildPart(v, k)))
  {
    if GoesThrough(v, k + 1, parts, e) {
      var i :| 0 <= i < k + 1 && e.parts[|parts|] == ChildPart(v, i);
      assert i == k || GoesThrough(v, k, parts, e);
    }
  }

  ghost predicate IsGathered(v: Json, k: nat, parts: seq<Part>, maxDepth: int, e: Entry)
    requires k <= ChildCount(v)
  {
    Leads(v, parts, maxDepth, e) && GoesThrough(v, k, parts, e)
  }

  lemma {:induction false} GatheredExactly(v: Json, k: nat, parts: seq<Part>, maxDepth: int, e: Entry)
    requires KeysAreDistinct(v) && k <= ChildCount(v) && |parts| < maxDepth
    ensures (e in Gather(v, k, parts, maxDepth)) == IsGathered(v, k, parts, maxDepth, e)
    decreases v, k
  {
    if k == 0 {
      NothingIsGathered(v, parts, maxDepth, e);
    } else {
      var i := k - 1;
      GatheredExactly(v, i, parts, maxDepth, e);
      ListedBelow(ChildValue(v, i), parts + [ChildPart(v, i)], maxDepth, e);
      GatherStep(v, i, parts, maxDepth, e);
    }
  }

  lemma NothingIsGathered(v: Json, parts: seq<Part>, maxDepth: int, e: Entry)
    ensures e !in Gather(v, 0, parts, maxDepth) && !IsGathered(v, 0, parts, maxDepth, e)
  {
  }

  lemma GatherStep(v: Json, k: nat, parts: seq<Part>, maxDepth: int, e: Entry)
    requires KeysAreDistinct(v) && k < ChildCount(v) && |parts| < maxDepth
    requires (e in Gather(v, k, parts, maxDepth)) == IsGathered(v, k, parts, maxDepth, e)
    requires var child, there := ChildValue(v, k), parts + [ChildPart(v, k)];
             (e in Entries(child, there, maxDepth)) == Leads(child, there, maxDepth, e)
    ensures (e in Gather(v, k + 1, parts, maxDepth)) == IsGathered(v, k + 1, parts, maxDepth, e)
  {
    InOneMoreChild(v, k, parts, maxDepth, e);
    GoesThroughOneMore(v, k, parts, e);
  }

  lemma InOneMoreChild(v: Json, k: nat, parts: seq<Part>, maxDepth: int, e: Entry)
    requires KeysAreDistinct(v) && k < ChildCount(v) && |parts| < maxDepth
    requires var child, there := ChildValue(v, k), parts + [ChildPart(v, k)];
             (e in Entries(child, there, maxDepth)) == Leads(child, there, maxDepth, e)
    ensures (e in Gather(v, k + 1, parts, maxDepth))
         == (e in Gather(v, k, parts, maxDepth)
             || (Leads(v, parts, maxDepth, e) && |e.parts| > |parts| && e.parts[|parts|] == ChildPart(v, k)))
  {
    LeadsThroughChild(v, k, parts, maxDepth, e);
  }

  lemma {:induction false} ListedBelow(v: Json, parts: seq<Part>, maxDepth: int, e: Entry)
    requires KeysAreDistinct(v)
    ensures e in Entries(v, parts, maxDepth) <==> Leads(v, parts, maxDepth, e)
    decreases v, ChildCount(v) + 1
  {
    if |parts| <= |e.parts| && e.parts[..|parts|] == parts && e.parts != parts {
      assert e.parts[|parts|..] != [];
      if Step(v, e.parts[|parts|]).Some? {
        var k := ChildOfStep(v, e.parts[|parts|]);
      }
    }
    if e.parts == parts { assert e.parts[|parts|..] == []; }
    if !IsScalar(v) && |parts| < maxDepth { GatheredExactly(v, ChildCount(v), parts, maxDepth, e); }
  }

  // The list is exactly the scalars a path can name: every one, and nothing else.
  lemma ListsExactlyTheReachableScalars(root: Json, maxDepth: int, e: Entry)
    requires KeysAreDistinct(root)
    ensures e in Entries(root, [], maxDepth)
       <==> && e.parts != [] && |e.parts| <= maxDepth && (forall k | 0 <= k < |e.parts| :: Listable(e.parts[k]))
            && Resolve(root, e.parts) == Some(e.value) && IsScalar(e.value)
            && e.path == Format(e.parts) && |e.path| <= MAX_LENGTH
  {
    ListedBelow(root, [], maxDepth, e);
    assert e.parts[0..] == e.parts;
  }

  // --------------------------------------------------------------------
  // No path is listed twice
  // --------------------------------------------------------------------

  ghost predicate NoRepeats(entries: seq<Entry>) {
    forall i, j | 0 <= i < j < |entries| :: entries[i].parts != entries[j].parts
  }

  lemma NoRepeatsAppend(a: seq<Entry>, b: seq<Entry>)
    requires NoRepeats(a) && NoRepeats(b)
    requires forall x, y | x in a && y in b :: x.parts != y.parts
    ensures NoRepeats(a + b)
  {
    forall i, j | 0 <= i < j < |a + b| ensures (a + b)[i].parts != (a + b)[j].parts {
      if i < |a| <= j { assert a[i] in a && b[j - |a|] in b; }
    }
  }

  lemma StandsBelow(parts: seq<Part>, part: Part, e: Entry)
    requires |parts| + 1 <= |e.parts| && e.parts[..|parts| + 1] == parts + [part]
    ensures e.parts[|parts|] == part
  {
    assert e.parts[..|parts| + 1][|parts|] == e.parts[|parts|];
  }

  lemma ChildrenAreApart(v: Json, k: nat, parts: seq<Part>, maxDepth: int, x: Entry, y: Entry)
    requires KeysAreDistinct(v) && k < ChildCount(v) && |parts| < maxDepth
    requires x in Gather(v, k, parts, maxDepth) && y in FromChild(v, k, parts, maxDepth)
    ensures x.parts != y.parts
  {
    GatheredExactly(v, k, parts, maxDepth, x);
    ListedBelow(ChildValue(v, k), parts + [ChildPart(v, k)], maxDepth, y);
    StandsBelow(parts, ChildPart(v, k), y);
    var i :| 0 <= i < k && x.parts[|parts|] == ChildPart(v, i);
    assert ChildPart(v, i) != ChildPart(v, k);
  }

  lemma {:induction false} GatheredOnce(v: Json, k: nat, parts: seq<Part>, maxDepth: int)
    requires KeysAreDistinct(v) && k <= ChildCount(v) && |parts| < maxDepth
    ensures NoRepeats(Gather(v, k, parts, maxDepth))
    decreases v, k
  {
    if k == 0 {
      NothingRepeats(v, parts, maxDepth);
    } else {
      var i := k - 1;
      GatheredOnce(v, i, parts, maxDepth);
      ListedOnceBelow(ChildValue(v, i), parts + [ChildPart(v, i)], maxDepth);
      OneMoreChildOnce(v, i, parts, maxDepth);
    }
  }

  lemma NothingRepeats(v: Json, parts: seq<Part>, maxDepth: int)
    ensures NoRepeats(Gather(v, 0, parts, maxDepth))
  {
  }

  lemma OneMoreChildOnce(v: Json, k: nat, parts: seq<Part>, maxDepth: int)
    requires KeysAreDistinct(v) && k < ChildCount(v) && |parts| < maxDepth
    requires NoRepeats(Gather(v, k, parts, maxDepth))
    requires NoRepeats(Entries(ChildValue(v, k), parts + [ChildPart(v, k)], maxDepth))
    ensures NoRepeats(Gather(v, k + 1, parts, maxDepth))
  {
    var before, below := Gather(v, k, parts, maxDepth), FromChild(v, k, parts, maxDepth);
    forall x, y | x in before && y in below ensures x.parts != y.parts {
      ChildrenAreApart(v, k, parts, maxDepth, x, y);
    }
    NoRepeatsAppend(before, below);
  }

  lemma {:induction false} ListedOnceBelow(v: Json, parts: seq<Part>, maxDepth: int)
    requires KeysAreDistinct(v)
    ensures NoRepeats(Entries(v, parts, maxDepth))
    decreases v, ChildCount(v) + 1
  {
    if !IsScalar(v) && |parts| < maxDepth { GatheredOnce(v, ChildCount(v), parts, maxDepth); }
  }

  // --------------------------------------------------------------------
  // Listed paths are selectors
  // --------------------------------------------------------------------

  // A listed path parses back to its parts exactly when every index in it is
  // below a million; then following the parsed path finds the listed value.
  lemma ListedPathsParseBackExactly(root: Json, maxDepth: int, e: Entry)
    requires KeysAreDistinct(root) && maxDepth <= MAX_PARTS && e in Entries(root, [], maxDepth)
    ensures Parse(e.path) == Ok(e.parts)
       <==> forall k | 0 <= k < |e.parts| && e.parts[k].Index? :: e.parts[k].n < 1_000_000
    ensures Parse(e.path) == Ok(e.parts) ==> Resolve(root, Parse(e.path).value) == Some(e.value)
  {
    ListsExactlyTheReachableScalars(root, maxDepth, e);
    if LegalParts(e.parts) {
      FormatThenParse(e.parts);
    } else if Parse(e.path) == Ok(e.parts) {
      ParseThenFormatIsStable(e.path, e.parts);
    }
  }

  // No array anywhere inside is longer than `most`.
  ghost predicate ArraysUpTo(v: Json, most: nat) {
    && (v.Arr? ==> |v.items| <= most)
    && forall k | 0 <= k < ChildCount(v) :: ArraysUpTo(ChildValue(v, k), most)
  }

  lemma {:induction false} IndexesAreBounded(v: Json, parts: seq<Part>, most: nat)
    requires ArraysUpTo(v, most) && Resolve(v, parts).Some?
    ensures forall k | 0 <= k < |parts| && parts[k].Index? :: parts[k].n < most
    decreases |parts|
  {
    if parts != [] {
      var child := Step(v, parts[0]).value;
      var i := if parts[0].Index? then parts[0].n else MemberIndex(v.members, parts[0].name);
      assert ArraysUpTo(ChildValue(v, i), most);
      IndexesAreBounded(child, parts[1..], most);
      forall k | 0 <= k < |parts| && parts[k].Index? ensures parts[k].n < most {
        if k > 0 { assert parts[k] == parts[1..][k - 1]; }
      }
    }
  }

  // With no array over a million long, every listed path is a selector for its
  // value, and no two listed paths are the same text.
  lemma EveryListedPathSelectsItsValue(root: Json, maxDepth: int, maxEntries: nat, list: seq<Entry>)
    requires KeysAreDistinct(root) && ArraysUpTo(root, 1_000_000)
    requires list == Capped(Entries(root, [], Min(maxDepth, MAX_PARTS)), maxEntries)
    ensures forall e | e in list :: Parse(e.path) == Ok(e.parts) && Resolve(root, Parse(e.path).value) == Some(e.value)
    ensures forall i, j | 0 <= i < j < |list| :: list[i].path != list[j].path
  {
    var depth := Min(maxDepth, MAX_PARTS);
    var all := Entries(root, [], depth);
    forall e | e in list
      ensures Parse(e.path) == Ok(e.parts) && Resolve(root, Parse(e.path).value) == Some(e.value)
    {
      assert e in all;
      ListsExactlyTheReachableScalars(root, depth, e);
      IndexesAreBounded(root, e.parts, 1_000_000);
      ListedPathsParseBackExactly(root, depth, e);
    }
    ListedOnceBelow(root, [], depth);
    forall i, j | 0 <= i < j < |list| ensures list[i].path != list[j].path {
      assert list[i] in list && list[j] in list && list[i] == all[i] && list[j] == all[j];
    }
  }
}
