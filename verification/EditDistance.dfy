// The fuzzy token match of apps/api/src/ai-help/app-help.service.ts: a
// Levenshtein test on two rolling rows that leaves early, behind a length
// prefilter.
module EditDistance {
  import opened Basics

  // --------------------------------------------------------------------
  // Edit scripts
  // --------------------------------------------------------------------

  datatype Edit = Copy(c: char) | Replace(from: char, to: char) | Insert(c: char) | Delete(c: char)

  // What one edit takes from the text, and what it puts there.
  function Taken(e: Edit): string {
    match e case Copy(c) => [c] case Replace(c, _) => [c] case Insert(_) => "" case Delete(c) => [c]
  }

  function Given(e: Edit): string {
    match e case Copy(c) => [c] case Replace(_, c) => [c] case Insert(c) => [c] case Delete(_) => ""
  }

  function Before(es: seq<Edit>): string {
    if es == [] then ""
    else
      var e := es[|es| - 1];
      Before(es[..|es| - 1]) + Taken(e)
  }

  function After(es: seq<Edit>): string {
    if es == [] then ""
    else
      var e := es[|es| - 1];
      After(es[..|es| - 1]) + Given(e)
  }

  function Cost(es: seq<Edit>): nat {
    if es == [] then 0 else Cost(es[..|es| - 1]) + (if es[|es| - 1].Copy? then 0 else 1)
  }

  // Some script turns `a` into `b` with at most `limit` edits.
  ghost predicate WithinEdits(a: string, b: string, limit: int) {
    exists es :: Before(es) == a && After(es) == b && Cost(es) <= limit
  }

  // --------------------------------------------------------------------
  // The distance table: the entry at (i, j) is Distance(a[..i], b[..j])
  // --------------------------------------------------------------------

  function Min3(x: nat, y: nat, z: nat): nat { Min(Min(x, y), z) }

  function Distance(a: string, b: string): nat
    decreases |a| + |b|
  {
    if a == "" then |b|
    else if b == "" then |a|
    else
      var n, m := |a| - 1, |b| - 1;
      Min3(Distance(a, b[..m]) + 1, Distance(a[..n], b) + 1,
           Distance(a[..n], b[..m]) + (if a[n] == b[m] then 0 else 1))
  }

  lemma DistanceStep(a: string, b: string, x: char, y: char)
    ensures Distance(a + [x], b) <= Distance(a, b) + 1
    ensures Distance(a, b + [y]) <= Distance(a, b) + 1
    ensures Distance(a + [x], b + [y]) <= Distance(a, b) + (if x == y then 0 else 1)
  {
    assert (a + [x])[..|a|] == a && (b + [y])[..|b|] == b;
  }

  // No script is cheaper than the table entry.
  lemma {:induction false} ScriptCostsAtLeast(es: seq<Edit>)
    ensures Distance(Before(es), After(es)) <= Cost(es)
  {
    if es != [] {
      var n := |es| - 1;
      ScriptCostsAtLeast(es[..n]);
      var a, b := Before(es[..n]), After(es[..n]);
      match es[n]
      case Copy(c) => DistanceStep(a, b, c, c);
      case Replace(c, d) => DistanceStep(a, b, c, d);
      case Insert(c) => DistanceStep(a, b, c, c); assert Before(es) == a;
      case Delete(c) => DistanceStep(a, b, c, c); assert After(es) == b;
    }
  }

  lemma Appended(es: seq<Edit>, e: Edit)
    ensures Cost(es + [e]) == Cost(es) + (if e.Copy? then 0 else 1)
    ensures Before(es + [e]) == Before(es) + Taken(e)
    ensures After(es + [e]) == After(es) + Given(e)
  {
    assert (es + [e])[..|es|] == es;
  }

  predicate IsScript(es: seq<Edit>, a: string, b: string, cost: int) {
    Before(es) == a && After(es) == b && Cost(es) == cost
  }

  // A script for all but the last characters, and one more edit.
  lemma ScriptGoesOn(es: seq<Edit>, a: string, b: string, cost: int, e: Edit)
    requires IsScript(es, a, b, cost)
    ensures IsScript(es + [e], a + Taken(e), b + Given(e), cost + if e.Copy? then 0 else 1)
  {
    Appended(es, e);
  }

  lemma Fronts(s: string)
    requires s != ""
    ensures s == s[..|s| - 1] + [s[|s| - 1]] && s + "" == s
  {
  }

  // The table entry is the cost of some script.
  lemma {:induction false} ScriptAttains(a: string, b: string) returns (es: seq<Edit>)
    ensures IsScript(es, a, b, Distance(a, b))
    decreases |a| + |b|
  {
    if a == "" && b == "" { return []; }
    var n, m := |a| - 1, |b| - 1;
    if a != "" { Fronts(a); }
    if b != "" { Fronts(b); }
    if b != "" && Distance(a, b) == Distance(a, b[..m]) + 1 {
      es := ScriptAttains(a, b[..m]);
      ScriptGoesOn(es, a, b[..m], Distance(a, b[..m]), Insert(b[m]));
      es := es + [Insert(b[m])];
    } else if a != "" && Distance(a, b) == Distance(a[..n], b) + 1 {
      es := ScriptAttains(a[..n], b);
      ScriptGoesOn(es, a[..n], b, Distance(a[..n], b), Delete(a[n]));
      es := es + [Delete(a[n])];
    } else {
      es := ScriptAttains(a[..n], b[..m]);
      var e := if a[n] == b[m] then Copy(a[n]) else Replace(a[n], b[m]);
      ScriptGoesOn(es, a[..n], b[..m], Distance(a[..n], b[..m]), e);
      es := es + [e];
    }
  }

  lemma WithinEditsIsDistance(a: string, b: string, limit: int)
    ensures WithinEdits(a, b, limit) <==> Distance(a, b) <= limit
  {
    if Distance(a, b) <= limit {
      var es := ScriptAttains(a, b);
    }
    forall es | Before(es) == a && After(es) == b ensures Distance(a, b) <= Cost(es) { ScriptCostsAtLeast(es); }
  }

  // --------------------------------------------------------------------
  // Leaving early, and the length prefilter
  // --------------------------------------------------------------------

  // Every entry of a row is at least some entry of the row before it.
  lemma {:induction false} RowMinimaGrow(a: string, x: char, b: string) returns (j: nat)
    ensures j <= |b| && Distance(a, b[..j]) <= Distance(a + [x], b)
  {
    assert (a + [x])[..|a|] == a && b[..|b|] == b;
    if b == "" { return 0; }
    var m := |b| - 1;
    if Distance(a + [x], b) == Distance(a + [x], b[..m]) + 1 {
      j := RowMinimaGrow(a, x, b[..m]);
      assert b[..m][..j] == b[..j];
    } else if Distance(a + [x], b) == Distance(a, b) + 1 {
      j := |b|;
    } else {
      j := m;
    }
  }

  // Once a whole row exceeds the limit, so does the final entry.
  lemma {:induction false} LeavingEarlyIsSound(a: string, i: nat, b: string, limit: int)
    requires i <= |a|
    requires forall j | 0 <= j <= |b| :: Distance(a[..i], b[..j]) > limit
    ensures Distance(a, b) > limit
    decreases |a| - i
  {
    if i == |a| {
      assert a[..i] == a && b[..|b|] == b;
    } else {
      assert a[..i + 1] == a[..i] + [a[i]];
      forall j | 0 <= j <= |b| ensures Distance(a[..i + 1], b[..j]) > limit {
        var k := RowMinimaGrow(a[..i], a[i], b[..j]);
        assert b[..j][..k] == b[..k];
      }
      LeavingEarlyIsSound(a, i + 1, b, limit);
    }
  }

  lemma {:induction false} LengthsDifferByAtMostDistance(a: string, b: string)
    ensures |a| - |b| <= Distance(a, b) && |b| - |a| <= Distance(a, b)
    decreases |a| + |b|
  {
    if a != "" && b != "" {
      LengthsDifferByAtMostDistance(a, b[..|b| - 1]);
      LengthsDifferByAtMostDistance(a[..|a| - 1], b);
      LengthsDifferByAtMostDistance(a[..|a| - 1], b[..|b| - 1]);
    }
  }

  // --------------------------------------------------------------------
  // The loops
  // --------------------------------------------------------------------

  ghost predicate IsRow(row: seq<nat>, a: string, b: string, count: nat) {
    |row| == count <= |b| + 1 && forall j | 0 <= j < count :: row[j] == Distance(a, b[..j])
  }

  // One entry of the table from its three neighbours.
  lemma EntryIs(a: string, i: nat, b: string, j: nat)
    requires 1 <= i <= |a| && 1 <= j <= |b|
    ensures Distance(a[..i], b[..j])
         == Min3(Distance(a[..i], b[..j - 1]) + 1, Distance(a[..i - 1], b[..j]) + 1,
                 Distance(a[..i - 1], b[..j - 1]) + (if a[i - 1] == b[j - 1] then 0 else 1))
  {
    assert a[..i][..i - 1] == a[..i - 1] && b[..j][..j - 1] == b[..j - 1];
  }

  lemma RowGrows(a: string, i: nat, b: string, j: nat, prev: seq<nat>, next: seq<nat>, value: nat)
    requires 1 <= i <= |a| && 1 <= j <= |b|
    requires IsRow(prev, a[..i - 1], b, |b| + 1) && IsRow(next, a[..i], b, j)
    requires value == Min3(next[j - 1] + 1, prev[j] + 1, prev[j - 1] + (if a[i - 1] == b[j - 1] then 0 else 1))
    ensures IsRow(next + [value], a[..i], b, j + 1)
  {
    EntryIs(a, i, b, j);
    assert value == Distance(a[..i], b[..j]);
  }

  lemma RowStarts(a: string, i: nat, b: string)
    requires i <= |a|
    ensures IsRow([i], a[..i], b, 1)
  {
    assert b[..0] == "";
  }

  method NextRow(a: string, i: nat, b: string, prev: seq<nat>) returns (next: seq<nat>, rowMin: nat)
    requires 1 <= i <= |a| && IsRow(prev, a[..i - 1], b, |b| + 1)
    ensures IsRow(next, a[..i], b, |b| + 1)
    ensures forall j | 0 <= j <= |b| :: rowMin <= next[j]
    ensures rowMin in next
  {
    next := [i];
    rowMin := i;
    RowStarts(a, i, b);
    for j := 1 to |b| + 1
      invariant IsRow(next, a[..i], b, j)
      invariant rowMin in next && forall k | 0 <= k < j :: rowMin <= next[k]
    {
      var value := Min3(next[j - 1] + 1, prev[j] + 1, prev[j - 1] + (if a[i - 1] == b[j - 1] then 0 else 1));
      RowGrows(a, i, b, j, prev, next, value);
      next := next + [value];
      rowMin := Min(rowMin, value);
    }
  }

  lemma FirstRow(row: seq<nat>, a: string, b: string)
    requires |row| == |b| + 1 && forall j | 0 <= j <= |b| :: row[j] == j
    ensures IsRow(row, a[..0], b, |b| + 1)
  {
    assert a[..0] == "";
  }

  lemma LastEntry(row: seq<nat>, a: string, b: string)
    requires IsRow(row, a[..|a|], b, |b| + 1)
    ensures row[|b|] == Distance(a, b)
  {
    assert a[..|a|] == a && b[..|b|] == b;
  }

  method EditDistanceWithin(a: string, b: string, limit: int) returns (within: bool)
    ensures within == WithinEdits(a, b, limit)
  {
    WithinEditsIsDistance(a, b, limit);
    var prev: seq<nat> := seq(|b| + 1, i requires 0 <= i => i);
    FirstRow(prev, a, b);
    for i := 1 to |a| + 1
      invariant IsRow(prev, a[..i - 1], b, |b| + 1)
    {
      var next, rowMin := NextRow(a, i, b, prev);
      if rowMin > limit {
        LeavingEarlyIsSound(a, i, b, limit);
        return false;
      }
      prev := next;
    }
    LastEntry(prev, a, b);
    return prev[|b|] <= limit;
  }

  function MaxDistance(token: string): nat {
    if |token| >= 8 then 2 else if |token| >= 4 then 1 else 0
  }

  // Candidates in the iteration order of the source's Set. Skipping on length
  // never loses a match; short tokens are never matched fuzzily.
  method FuzzyStrongMatch(token: string, candidates: seq<string>) returns (found: bool)
    ensures found
       <==> || (|token| >= 8 && exists c | c in candidates :: WithinEdits(token, c, 2))
            || (4 <= |token| < 8 && exists c | c in candidates :: WithinEdits(token, c, 1))
  {
    var maxDistance := MaxDistance(token);
    if maxDistance == 0 { return false; }
    for k := 0 to |candidates|
      invariant forall c | c in candidates[..k] :: !WithinEdits(token, c, maxDistance)
    {
      var candidate := candidates[k];
      var gap := if |candidate| >= |token| then |candidate| - |token| else |token| - |candidate|;
      if gap > maxDistance {
        WithinEditsIsDistance(token, candidate, maxDistance);
        LengthsDifferByAtMostDistance(token, candidate);
        continue;
      }
      var within := EditDistanceWithin(token, candidate, maxDistance);
      if within { return true; }
    }
    return false;
  }
}
