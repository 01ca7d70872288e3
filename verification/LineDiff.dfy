// The bounded line diff of packages/shared/src/article-proposal.ts: an LCS
// table filled from the end, then a greedy walk.
module LineDiff {
  import opened Basics

  type Line = string

  datatype Op = Same(text: Line) | Add(text: Line) | Del(text: Line)

  const DIFF_MAX_CELLS: nat := 2048 * 2048

  // --------------------------------------------------------------------
  // What a diff is
  // --------------------------------------------------------------------

  // The lines an op list says were there before, and are there after.
  function OldSide(ops: seq<Op>): seq<Line> {
    if ops == [] then []
    else (if ops[0].Add? then [] else [ops[0].text]) + OldSide(ops[1..])
  }

  function NewSide(ops: seq<Op>): seq<Line> {
    if ops == [] then []
    else (if ops[0].Del? then [] else [ops[0].text]) + NewSide(ops[1..])
  }

  function Kept(ops: seq<Op>): seq<Line> {
    if ops == [] then []
    else (if ops[0].Same? then [ops[0].text] else []) + Kept(ops[1..])
  }

  function Changes(ops: seq<Op>): nat {
    if ops == [] then 0 else (if ops[0].Same? then 0 else 1) + Changes(ops[1..])
  }

  // `c` is obtained from `a` by deleting elements.
  predicate IsSubseq(c: seq<Line>, a: seq<Line>) {
    || c == []
    || (a != [] && ((c[0] == a[0] && IsSubseq(c[1..], a[1..])) || IsSubseq(c, a[1..])))
  }

  // --------------------------------------------------------------------
  // Longest common subsequence
  // --------------------------------------------------------------------

  // The table entry at (i, j) is Lcs(a[i..], b[j..]).
  function Lcs(a: seq<Line>, b: seq<Line>): nat
    decreases |a| + |b|
  {
    if a == [] || b == [] then 0
    else if a[0] == b[0] then 1 + Lcs(a[1..], b[1..])
    else Max(Lcs(a[1..], b), Lcs(a, b[1..]))
  }

  lemma {:induction false} SubseqTail(c: seq<Line>, a: seq<Line>)
    requires c != [] && IsSubseq(c, a)
    ensures a != [] && IsSubseq(c[1..], a[1..])
  {
    if !(c[0] == a[0] && IsSubseq(c[1..], a[1..])) {
      SubseqTail(c, a[1..]);
      SubseqSkip(c[1..], a[1..]);
    }
  }

  lemma SubseqSkip(c: seq<Line>, a: seq<Line>)
    requires a != [] && IsSubseq(c, a[1..])
    ensures IsSubseq(c, a)
  {
  }

  // No common subsequence of any kind is longer than the table says.
  lemma {:induction false} LcsIsUpperBound(c: seq<Line>, a: seq<Line>, b: seq<Line>)
    requires IsSubseq(c, a) && IsSubseq(c, b)
    ensures |c| <= Lcs(a, b)
    decreases |a| + |b|
  {
    if c != [] {
      if a[0] == b[0] {
        SubseqTail(c, a);
        SubseqTail(c, b);
        LcsIsUpperBound(c[1..], a[1..], b[1..]);
      } else if c[0] != a[0] {
        LcsIsUpperBound(c, a[1..], b);
      } else {
        LcsIsUpperBound(c, a, b[1..]);
      }
    }
  }

  // --------------------------------------------------------------------
  // The walk
  // --------------------------------------------------------------------

  function All(lines: seq<Line>, op: Line -> Op): seq<Op> {
    if lines == [] then [] else [op(lines[0])] + All(lines[1..], op)
  }

  const AS_DEL: Line -> Op := (l: Line) => Del(l)
  const AS_ADD: Line -> Op := (l: Line) => Add(l)

  function Walk(a: seq<Line>, b: seq<Line>): seq<Op>
    decreases |a| + |b|
  {
    if a == [] then All(b, AS_ADD)
    else if b == [] then All(a, AS_DEL)
    else if a[0] == b[0] then [Same(a[0])] + Walk(a[1..], b[1..])
    else if Lcs(a[1..], b) >= Lcs(a, b[1..]) then [Del(a[0])] + Walk(a[1..], b)
    else [Add(b[0])] + Walk(a, b[1..])
  }

  lemma {:induction false} AllAddSides(lines: seq<Line>)
    ensures var ops := All(lines, AS_ADD);
            OldSide(ops) == [] && NewSide(ops) == lines && Kept(ops) == [] && (forall o | o in ops :: o.Add?)
  {
    if lines != [] { AllAddSides(lines[1..]); }
  }

  lemma {:induction false} AllDelSides(lines: seq<Line>)
    ensures var ops := All(lines, AS_DEL);
            OldSide(ops) == lines && NewSide(ops) == [] && Kept(ops) == [] && (forall o | o in ops :: o.Del?)
  {
    if lines != [] { AllDelSides(lines[1..]); }
  }

  // The walk spells both inputs and keeps as many lines as the table promises.
  lemma {:induction false} WalkSpells(a: seq<Line>, b: seq<Line>)
    ensures OldSide(Walk(a, b)) == a && NewSide(Walk(a, b)) == b && |Kept(Walk(a, b))| == Lcs(a, b)
    decreases |a| + |b|
  {
    if a == [] {
      AllAddSides(b);
    } else if b == [] {
      AllDelSides(a);
    } else if a[0] == b[0] {
      WalkSpells(a[1..], b[1..]);
    } else if Lcs(a[1..], b) >= Lcs(a, b[1..]) {
      WalkSpells(a[1..], b);
    } else {
      WalkSpells(a, b[1..]);
    }
  }

  // Whatever any diff keeps is a common subsequence of its two sides.
  lemma {:induction false} KeptIsCommon(ops: seq<Op>)
    ensures IsSubseq(Kept(ops), OldSide(ops)) && IsSubseq(Kept(ops), NewSide(ops))
    ensures |OldSide(ops)| + |NewSide(ops)| == 2 * |Kept(ops)| + Changes(ops)
  {
    if ops != [] {
      KeptIsCommon(ops[1..]);
      var old', new' := OldSide(ops), NewSide(ops);
      match ops[0]
      case Same(t) =>
        assert old'[1..] == OldSide(ops[1..]) && new'[1..] == NewSide(ops[1..]) && Kept(ops)[1..] == Kept(ops[1..]);
      case Add(t) =>
        assert new'[1..] == NewSide(ops[1..]) && old' == OldSide(ops[1..]) && Kept(ops) == Kept(ops[1..]);
        SubseqSkip(Kept(ops), new');
      case Del(t) =>
        assert old'[1..] == OldSide(ops[1..]) && new' == NewSide(ops[1..]) && Kept(ops) == Kept(ops[1..]);
        SubseqSkip(Kept(ops), old');
    }
  }

  // Among ALL op lists that turn `a` into `b`, the walk makes the fewest
  // changes, and what it keeps is a longest of ALL common subsequences.
  lemma WalkIsMinimal(a: seq<Line>, b: seq<Line>)
    ensures forall ops | OldSide(ops) == a && NewSide(ops) == b :: Changes(Walk(a, b)) <= Changes(ops)
    ensures IsSubseq(Kept(Walk(a, b)), a) && IsSubseq(Kept(Walk(a, b)), b)
    ensures forall c | IsSubseq(c, a) && IsSubseq(c, b) :: |c| <= |Kept(Walk(a, b))|
  {
    WalkSpells(a, b);
    KeptIsCommon(Walk(a, b));
    forall c | IsSubseq(c, a) && IsSubseq(c, b) ensures |c| <= Lcs(a, b) { LcsIsUpperBound(c, a, b); }
    forall ops | OldSide(ops) == a && NewSide(ops) == b ensures Changes(Walk(a, b)) <= Changes(ops) {
      KeptIsCommon(ops);
      LcsIsUpperBound(Kept(ops), a, b);
    }
  }

  // Ties go to deletions, so inside a changed block every deletion is listed
  // before the first addition.
  ghost predicate DelsBeforeAdds(ops: seq<Op>) {
    forall k | 0 <= k < |ops| - 1 :: ops[k].Add? ==> !ops[k + 1].Del?
  }

  lemma {:induction false} WalkListsDelsFirst(a: seq<Line>, b: seq<Line>)
    ensures DelsBeforeAdds(Walk(a, b))
    decreases |a| + |b|
  {
    if a == [] {
      AllAddSides(b);
      assert forall k | 0 <= k < |Walk(a, b)| :: Walk(a, b)[k] in Walk(a, b);
    } else if b == [] {
      AllDelSides(a);
      assert forall k | 0 <= k < |Walk(a, b)| :: Walk(a, b)[k] in Walk(a, b);
    } else if a[0] == b[0] {
      WalkListsDelsFirst(a[1..], b[1..]);
    } else if Lcs(a[1..], b) >= Lcs(a, b[1..]) {
      WalkListsDelsFirst(a[1..], b);
    } else {
      var rest := Walk(a, b[1..]);
      WalkListsDelsFirst(a, b[1..]);
      LcsDropIsMonotone(a[1..], b);
      assert b[1..] != [];
    }
  }

  lemma LcsDropIsMonotone(a: seq<Line>, b: seq<Line>)
    requires b != []
    ensures Lcs(a, b[1..]) <= Lcs(a, b)
  {
    WalkSpells(a, b[1..]);
    KeptIsCommon(Walk(a, b[1..]));
    SubseqSkip(Kept(Walk(a, b[1..])), b);
    LcsIsUpperBound(Kept(Walk(a, b[1..])), a, b);
  }

  // --------------------------------------------------------------------
  // The table and the loops
  // --------------------------------------------------------------------

  method FillTable(a: seq<Line>, b: seq<Line>) returns (dp: array2<nat>)
    ensures fresh(dp) && dp.Length0 == |a| + 1 && dp.Length1 == |b| + 1
    ensures forall i, j | 0 <= i <= |a| && 0 <= j <= |b| :: dp[i, j] == Lcs(a[i..], b[j..])
  {
    var n, m := |a|, |b|;
    dp := new nat[n + 1, m + 1]((_, _) => 0);
    for i := n downto 0
      invariant forall x, y | i <= x <= n && 0 <= y <= m :: dp[x, y] == Lcs(a[x..], b[y..])
      invariant forall x | 0 <= x <= n :: dp[x, m] == 0
    {
      for j := m downto 0
        invariant forall x, y | i < x <= n && 0 <= y <= m :: dp[x, y] == Lcs(a[x..], b[y..])
        invariant forall y | j <= y <= m :: dp[i, y] == Lcs(a[i..], b[y..])
        invariant forall x | 0 <= x <= n :: dp[x, m] == 0
      {
        assert a[i..][1..] == a[i + 1..] && b[j..][1..] == b[j + 1..];
        if a[i] == b[j] {
          dp[i, j] := dp[i + 1, j + 1] + 1;
        } else {
          dp[i, j] := Max(dp[i + 1, j], dp[i, j + 1]);
        }
      }
    }
  }

  // One step of the walk at (i, j).
  lemma WalkStep(a: seq<Line>, b: seq<Line>, i: nat, j: nat)
    requires i < |a| && j < |b|
    ensures Walk(a[i..], b[j..])
         == if a[i] == b[j] then [Same(a[i])] + Walk(a[i + 1..], b[j + 1..])
            else if Lcs(a[i + 1..], b[j..]) >= Lcs(a[i..], b[j + 1..]) then [Del(a[i])] + Walk(a[i + 1..], b[j..])
            else [Add(b[j])] + Walk(a[i..], b[j + 1..])
  {
    assert a[i..][1..] == a[i + 1..] && b[j..][1..] == b[j + 1..];
  }

  // One side is used up.
  lemma WalkDel(a: seq<Line>, b: seq<Line>, i: nat, j: nat)
    requires i < |a| && j == |b|
    ensures Walk(a[i..], b[j..]) == [Del(a[i])] + Walk(a[i + 1..], b[j..])
  {
    assert a[i..][1..] == a[i + 1..] && b[j..] == [];
  }

  lemma WalkAdd(a: seq<Line>, b: seq<Line>, i: nat, j: nat)
    requires i == |a| && j < |b|
    ensures Walk(a[i..], b[j..]) == [Add(b[j])] + Walk(a[i..], b[j + 1..])
  {
    assert b[j..][1..] == b[j + 1..] && a[i..] == [];
  }

  lemma WalkEnds(a: seq<Line>, b: seq<Line>)
    ensures Walk(a[0..], b[0..]) == Walk(a, b) && Walk(a[|a|..], b[|b|..]) == []
  {
    assert a[0..] == a && b[0..] == b;
  }

  // Moving the next op from the walk that is left to the ops written so far.
  lemma Moves(ops: seq<Op>, op: Op, next: seq<Op>, rest: seq<Op>, whole: seq<Op>)
    requires ops + rest == whole && rest == [op] + next
    ensures ops + [op] + next == whole
  {
    Reassociate(ops, [op], next);
  }

  // The ops written so far and the walk from (i, j) make the whole walk.
  ghost predicate WalksOn(ops: seq<Op>, a: seq<Line>, b: seq<Line>, i: nat, j: nat)
    requires i <= |a| && j <= |b|
  {
    ops + Walk(a[i..], b[j..]) == Walk(a, b)
  }

  lemma SameMoves(ops: seq<Op>, a: seq<Line>, b: seq<Line>, i: nat, j: nat)
    requires i < |a| && j < |b| && WalksOn(ops, a, b, i, j) && a[i] == b[j]
    ensures WalksOn(ops + [Same(a[i])], a, b, i + 1, j + 1)
  {
    WalkStep(a, b, i, j);
    Moves(ops, Same(a[i]), Walk(a[i + 1..], b[j + 1..]), Walk(a[i..], b[j..]), Walk(a, b));
  }

  lemma DelMoves(ops: seq<Op>, a: seq<Line>, b: seq<Line>, i: nat, j: nat)
    requires i < |a| && j <= |b| && WalksOn(ops, a, b, i, j)
    requires j < |b| ==> a[i] != b[j] && Lcs(a[i + 1..], b[j..]) >= Lcs(a[i..], b[j + 1..])
    ensures WalksOn(ops + [Del(a[i])], a, b, i + 1, j)
  {
    if j < |b| { WalkStep(a, b, i, j); } else { WalkDel(a, b, i, j); }
    Moves(ops, Del(a[i]), Walk(a[i + 1..], b[j..]), Walk(a[i..], b[j..]), Walk(a, b));
  }

  lemma AddMoves(ops: seq<Op>, a: seq<Line>, b: seq<Line>, i: nat, j: nat)
    requires i <= |a| && j < |b| && WalksOn(ops, a, b, i, j)
    requires i < |a| ==> a[i] != b[j] && Lcs(a[i + 1..], b[j..]) < Lcs(a[i..], b[j + 1..])
    ensures WalksOn(ops + [Add(b[j])], a, b, i, j + 1)
  {
    if i < |a| { WalkStep(a, b, i, j); } else { WalkAdd(a, b, i, j); }
    Moves(ops, Add(b[j]), Walk(a[i..], b[j + 1..]), Walk(a[i..], b[j..]), Walk(a, b));
  }

  lemma WalkIsDone(ops: seq<Op>, a: seq<Line>, b: seq<Line>)
    requires WalksOn(ops, a, b, |a|, |b|)
    ensures ops == Walk(a, b)
  {
    WalkEnds(a, b);
  }

  method WalkTable(a: seq<Line>, b: seq<Line>, dp: array2<nat>) returns (ops: seq<Op>)
    requires dp.Length0 == |a| + 1 && dp.Length1 == |b| + 1
    requires forall i, j | 0 <= i <= |a| && 0 <= j <= |b| :: dp[i, j] == Lcs(a[i..], b[j..])
    ensures ops == Walk(a, b)
  {
    var n, m := |a|, |b|;
    ops := [];
    var i, j := 0, 0;
    WalkEnds(a, b);
    while i < n && j < m
      invariant 0 <= i <= n && 0 <= j <= m
      invariant WalksOn(ops, a, b, i, j)
    {
      if a[i] == b[j] {
        SameMoves(ops, a, b, i, j);
        ops := ops + [Same(a[i])];
        i, j := i + 1, j + 1;
      } else if dp[i + 1, j] >= dp[i, j + 1] {
        DelMoves(ops, a, b, i, j);
        ops := ops + [Del(a[i])];
        i := i + 1;
      } else {
        AddMoves(ops, a, b, i, j);
        ops := ops + [Add(b[j])];
        j := j + 1;
      }
    }
    while i < n
      invariant 0 <= i <= n && 0 <= j <= m && (i < n ==> j == m)
      invariant WalksOn(ops, a, b, i, j)
    {
      DelMoves(ops, a, b, i, j);
      ops := ops + [Del(a[i])];
      i := i + 1;
    }
    while j < m
      invariant 0 <= j <= m
      invariant WalksOn(ops, a, b, n, j)
    {
      AddMoves(ops, a, b, n, j);
      ops := ops + [Add(b[j])];
      j := j + 1;
    }
    WalkIsDone(ops, a, b);
  }

  method ComputeLineDiff(a: seq<Line>, b: seq<Line>) returns (result: Option<seq<Op>>)
    ensures result.None? <==> (|a| + 1) * (|b| + 1) > 2048 * 2048
    ensures result.Some? ==>
      && OldSide(result.value) == a && NewSide(result.value) == b
      && (forall ops | OldSide(ops) == a && NewSide(ops) == b :: Changes(result.value) <= Changes(ops))
      && (forall c | IsSubseq(c, a) && IsSubseq(c, b) :: |c| <= |Kept(result.value)|)
      && DelsBeforeAdds(result.value)
  {
    var n, m := |a|, |b|;
    if (n + 1) * (m + 1) > DIFF_MAX_CELLS { return None; }
    var dp := FillTable(a, b);
    var ops := WalkTable(a, b, dp);
    WalkSpells(a, b);
    WalkIsMinimal(a, b);
    WalkListsDelsFirst(a, b);
    return Some(ops);
  }
}
