// String searching as the source's String.prototype methods do it.
module Text {
  import opened Basics

  predicate OccursAt(s: string, p: string, k: int) {
    0 <= k <= |s| - |p| && s[k..k + |p|] == p
  }

  // s.indexOf(p, from); -1 when there is no occurrence.
  function IndexOf(s: string, p: string, from: nat): (r: int)
    ensures r == -1 || Min(from, |s|) <= r <= |s| - |p|
    decreases |s| - from
  {
    var start := Min(from, |s|);
    if OccursAt(s, p, start) then start
    else if start >= |s| then -1
    else IndexOf(s, p, start + 1)
  }

  // It is the first occurrence.
  lemma {:induction false} IndexOfIsFirst(s: string, p: string, from: nat)
    ensures var r := IndexOf(s, p, from);
            && (r == -1 || OccursAt(s, p, r))
            && forall k | Min(from, |s|) <= k && (r == -1 || k < r) :: !OccursAt(s, p, k)
    decreases |s| - from
  {
    var start := Min(from, |s|);
    if !OccursAt(s, p, start) && start < |s| { IndexOfIsFirst(s, p, start + 1); }
  }

  // s.split(p).length - 1: the occurrences met from left to right, skipping over each.
  function SplitCount(s: string, p: string): nat
    requires p != ""
    decreases |s|
  {
    var k := IndexOf(s, p, 0);
    if k == -1 then 0 else 1 + SplitCount(s[k + |p|..], p)
  }

  // The only occurrence of `p` in `s`.
  ghost predicate OnlyAt(s: string, p: string, k: int) {
    OccursAt(s, p, k) && forall j | OccursAt(s, p, j) :: j == k
  }

  lemma OccursInPart(a: string, b: string, c: string, p: string, k: int)
    requires |a| <= k && k + |p| <= |a| + |b|
    ensures OccursAt(a + b + c, p, k) <==> OccursAt(b, p, k - |a|)
  {
    if k + |p| <= |a| + |b| {
      assert (a + b + c)[k..k + |p|] == b[k - |a|..k - |a| + |p|];
    }
  }

  lemma CharsOf(s: string, p: string, k: int)
    requires OccursAt(s, p, k)
    ensures forall i | 0 <= i < |p| :: s[k + i] == p[i]
  {
    forall i | 0 <= i < |p| ensures s[k + i] == p[i] { assert s[k..k + |p|][i] == s[k + i]; }
  }

  // No copy of `p` can begin inside another one: its first character comes only first.
  ghost predicate StartsOnce(p: string) {
    p != "" && forall i | 0 < i < |p| :: p[i] != p[0]
  }

  lemma NoOverlap(s: string, p: string, q: string, i: int, j: int)
    requires StartsOnce(p) && q != "" && q[0] == p[0]
    requires OccursAt(s, p, i) && OccursAt(s, q, j) && i < j
    ensures i + |p| <= j
  {
    CharsOf(s, p, i);
    CharsOf(s, q, j);
    assert s[j + 0] == q[0] && s[i + (j - i)] == s[j];
  }

  lemma OccursAfterCut(s: string, p: string, n: nat)
    requires n <= |s|
    ensures forall j | n <= j :: OccursAt(s, p, j) <==> OccursAt(s[n..], p, j - n)
  {
    forall j | n <= j ensures OccursAt(s, p, j) <==> OccursAt(s[n..], p, j - n) {
      if j + |p| <= |s| { assert s[n..][j - n..j - n + |p|] == s[j..j + |p|]; }
    }
  }

  // What is counted behind the first occurrence.
  lemma CountUnfolds(s: string, p: string, k: nat, rest: string)
    requires p != "" && k == IndexOf(s, p, 0) && rest == s[k + |p|..]
    ensures SplitCount(s, p) == 1 + SplitCount(rest, p)
    ensures SplitCount(rest, p) == 0 <==> IndexOf(rest, p, 0) == -1
  {
  }

  lemma OnlyOccurrence(s: string, p: string, k: nat, rest: string)
    requires StartsOnce(p) && k == IndexOf(s, p, 0) && rest == s[k + |p|..]
    ensures OccursAt(s, p, k)
    ensures OnlyAt(s, p, k) <==> IndexOf(rest, p, 0) == -1
  {
    var n := k + |p|;
    IndexOfIsFirst(s, p, 0);
    IndexOfIsFirst(rest, p, 0);
    OccursAfterCut(s, p, n);
    if IndexOf(rest, p, 0) == -1 {
      forall j | OccursAt(s, p, j) ensures j == k {
        if j > k { NoOverlap(s, p, p, k, j); }
      }
    } else {
      assert OccursAt(s, p, n + IndexOf(rest, p, 0));
    }
  }

  lemma CountOneMeansOnly(s: string, p: string)
    requires StartsOnce(p)
    ensures SplitCount(s, p) == 0 <==> forall k :: !OccursAt(s, p, k)
    ensures SplitCount(s, p) == 1 <==> OnlyAt(s, p, IndexOf(s, p, 0))
  {
    var k := IndexOf(s, p, 0);
    if k == -1 {
      IndexOfIsFirst(s, p, 0);
    } else {
      CountUnfolds(s, p, k, s[k + |p|..]);
      OnlyOccurrence(s, p, k, s[k + |p|..]);
    }
  }

  // --------------------------------------------------------------------
  // Splitting, joining and trimming
  // --------------------------------------------------------------------

  // s.split(c) for a one-character separator.
  function Split(s: string, c: char): (parts: seq<string>)
    ensures parts != []
    decreases |s|
  {
    var k := IndexOf(s, [c], 0);
    if k == -1 then [s] else [s[..k]] + Split(s[k + 1..], c)
  }

  // parts.join(separator)
  function Join(parts: seq<string>, separator: string): string {
    if parts == [] then ""
    else if |parts| == 1 then parts[0]
    else parts[0] + separator + Join(parts[1..], separator)
  }

  // What String.prototype.trim removes: WhiteSpace and LineTerminator of ECMA-262.
  predicate IsSpace(c: char) {
    || c in {'\t', '\n', '\U{000B}', '\U{000C}', '\r', ' ', '\U{00A0}', '\U{1680}',
             '\U{2028}', '\U{2029}', '\U{202F}', '\U{205F}', '\U{3000}', '\U{FEFF}'}
    || '\U{2000}' <= c <= '\U{200A}'
  }

  function TrimStart(s: string): string {
    if s != "" && IsSpace(s[0]) then TrimStart(s[1..]) else s
  }

  function TrimEnd(s: string): string {
    if s != "" && IsSpace(s[|s| - 1]) then TrimEnd(s[..|s| - 1]) else s
  }

  function Trim(s: string): string { TrimEnd(TrimStart(s)) }

  // A one-character pattern occurs exactly where the character is.
  lemma OccursChar(s: string, c: char)
    ensures forall k :: OccursAt(s, [c], k) <==> 0 <= k < |s| && s[k] == c
  {
    forall k ensures OccursAt(s, [c], k) <==> 0 <= k < |s| && s[k] == c {
      if 0 <= k < |s| { assert s[k..k + 1] == [s[k]]; }
    }
  }

  lemma FirstChar(s: string, c: char)
    ensures var i := IndexOf(s, [c], 0);
            && (i == -1 <==> forall k | 0 <= k < |s| :: s[k] != c)
            && (i != -1 ==> i < |s| && s[i] == c && forall k | 0 <= k < i :: s[k] != c)
  {
    OccursChar(s, c);
    IndexOfIsFirst(s, [c], 0);
    var i := IndexOf(s, [c], 0);
    assert forall k | 0 <= k < |s| && s[k] == c :: OccursAt(s, [c], k);
  }

  predicate Lacks(s: string, c: char) { forall k | 0 <= k < |s| :: s[k] != c }

  lemma {:induction false} SplitOfJoin(parts: seq<string>, c: char)
    requires parts != [] && forall k | 0 <= k < |parts| :: Lacks(parts[k], c)
    ensures Split(Join(parts, [c]), c) == parts
  {
    var s, part := Join(parts, [c]), parts[0];
    FirstChar(s, c);
    if |parts| > 1 {
      var rest := Join(parts[1..], [c]);
      SplitOfJoin(parts[1..], c);
      assert s[|part|] == c && forall k | 0 <= k < |part| :: s[k] == part[k];
      assert s[..|part|] == part && s[|part| + 1..] == rest;
      assert [part] + parts[1..] == parts;
    }
  }

  // Trimming cuts a slice out of the text and drops only white space.
  lemma {:induction false} TrimIsSlice(s: string) returns (a: nat, b: nat)
    ensures a <= b <= |s| && Trim(s) == s[a..b]
    ensures forall k | 0 <= k < a || b <= k < |s| :: IsSpace(s[k])
  {
    a := StartIsSlice(s);
    var t := s[a..];
    b := EndIsSlice(t);
    forall k | a + b <= k < |s| ensures IsSpace(s[k]) { assert t[k - a] == s[k]; }
    assert t[..b] == s[a..a + b];
    b := a + b;
  }

  lemma {:induction false} StartIsSlice(s: string) returns (a: nat)
    ensures a <= |s| && TrimStart(s) == s[a..] && forall k | 0 <= k < a :: IsSpace(s[k])
  {
    if s != "" && IsSpace(s[0]) {
      var r := StartIsSlice(s[1..]);
      a := r + 1;
      assert s[1..][r..] == s[a..];
      forall k | 0 <= k < a ensures IsSpace(s[k]) { if k > 0 { assert s[1..][k - 1] == s[k]; } }
    } else {
      a := 0;
      assert s[0..] == s;
    }
  }

  lemma {:induction false} EndIsSlice(s: string) returns (b: nat)
    ensures b <= |s| && TrimEnd(s) == s[..b] && forall k | b <= k < |s| :: IsSpace(s[k])
  {
    if s != "" && IsSpace(s[|s| - 1]) {
      var t := s[..|s| - 1];
      b := EndIsSlice(t);
      assert t[..b] == s[..b];
      forall k | b <= k < |s| ensures IsSpace(s[k]) { if k < |t| { assert t[k] == s[k]; } }
    } else {
      b := |s|;
      assert s[..b] == s;
    }
  }

  lemma TrimKeepsAll(s: string)
    requires s == "" || (!IsSpace(s[0]) && !IsSpace(s[|s| - 1]))
    ensures Trim(s) == s
  {
    var a, b := TrimIsSlice(s);
    if s != "" { assert a == 0 && b == |s| && s[0..|s|] == s; }
  }

  lemma SplitUnfolds(s: string, c: char, k: int)
    requires k == IndexOf(s, [c], 0)
    ensures Split(s, c) == if k == -1 then [s] else [s[..k]] + Split(s[k + 1..], c)
  {
  }

  lemma CutAround(s: string, k: nat)
    requires k < |s|
    ensures s == s[..k] + [s[k]] + s[k + 1..]
  {
  }

  // The first part of a text and what follows it, or the whole text as one part.
  lemma CutFirst(s: string, c: char) returns (found: bool, front: string, rest: string)
    ensures found ==> s == front + [c] + rest && Split(s, c) == [front] + Split(rest, c)
    ensures !found ==> front == s && Split(s, c) == [s]
    ensures Lacks(front, c) && |rest| <= |s| && (found ==> |rest| < |s|)
  {
    var n := IndexOf(s, [c], 0);
    FirstChar(s, c);
    SplitUnfolds(s, c, n);
    found := n != -1;
    front, rest := if found then s[..n] else s, if found then s[n + 1..] else s;
    if found { CutAround(s, n); }
  }

  lemma FrontEndsAt(s: string, front: string, c: char, rest: string)
    requires s == front + [c] + rest && Lacks(front, c)
    ensures IndexOf(s, [c], 0) == |front|
  {
    assert s[|front|] == c && forall k | 0 <= k < |front| :: s[k] == front[k];
    FirstChar(s, c);
  }

  lemma SplitFirst(s: string, front: string, c: char, rest: string)
    requires s == front + [c] + rest && Lacks(front, c)
    ensures Split(s, c) == [front] + Split(rest, c)
  {
    FrontEndsAt(s, front, c, rest);
    SplitUnfolds(s, c, |front|);
    assert s[..|front|] == front && s[|front| + 1..] == rest;
  }

  lemma SplitWhole(s: string, c: char)
    requires Lacks(s, c)
    ensures Split(s, c) == [s]
  {
    FirstChar(s, c);
  }
}
