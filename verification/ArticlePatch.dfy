// The exact search-and-replace edits of packages/shared/src/article-patch.ts.
module ArticlePatch {
  import opened Basics
  import opened Text

  datatype Edit = Edit(oldText: string, newText: string)

  datatype FailureCode = NotFound | Ambiguous

  datatype Result = Ok(markdown: string) | Failed(code: FailureCode, editIndex: nat)

  predicate Occurs(s: string, p: string) { exists k | 0 <= k <= |s| :: OccursAt(s, p, k) }

  // The text occurs, and not at two places; overlapping occurrences count apart.
  ghost predicate OccursOnce(s: string, p: string) {
    Occurs(s, p) && forall i, j | OccursAt(s, p, i) && OccursAt(s, p, j) :: i == j
  }

  function Splice(s: string, k: nat, n: nat, middle: string): string
    requires k + n <= |s|
  {
    s[..k] + middle + s[k + n..]
  }

  // --------------------------------------------------------------------
  // One edit
  // --------------------------------------------------------------------

  function Step(s: string, edit: Edit, index: nat): Result {
    var first := IndexOf(s, edit.oldText, 0);
    if first == -1 then Failed(NotFound, index)
    else if IndexOf(s, edit.oldText, first + 1) != -1 then Failed(Ambiguous, index)
    else Ok(Splice(s, first, |edit.oldText|, edit.newText))
  }

  // An edit applies exactly when its old text is not empty and occurs once; the
  // empty text is ambiguous even in the empty document, where it occurs once,
  // because indexOf never searches past the end.
  lemma EditAppliesExactly(s: string, edit: Edit, index: nat)
    ensures Step(s, edit, index).Ok? <==> edit.oldText != "" && OccursOnce(s, edit.oldText)
    ensures Step(s, edit, index) == Failed(NotFound, index) <==> !Occurs(s, edit.oldText)
    ensures Step(s, edit, index) == Failed(Ambiguous, index)
       <==> Occurs(s, edit.oldText) && (edit.oldText == "" || !OccursOnce(s, edit.oldText))
  {
    var p := edit.oldText;
    var first := IndexOf(s, p, 0);
    IndexOfIsFirst(s, p, 0);
    if first != -1 {
      assert OccursAt(s, p, first);
      var second := IndexOf(s, p, first + 1);
      IndexOfIsFirst(s, p, first + 1);
      if p == "" {
        var end := Min(first + 1, |s|);
        assert OccursAt(s, p, end);
      } else if second == -1 {
        assert forall i | OccursAt(s, p, i) :: i == first;
      } else {
        assert OccursAt(s, p, second) && second > first;
      }
    }
  }

  lemma EmptyOldTextIsAlwaysAmbiguous(s: string, newText: string, index: nat)
    ensures Step(s, Edit("", newText), index) == Failed(Ambiguous, index)
    ensures OccursOnce("", "")
  {
    assert OccursAt(s, "", 0) && OccursAt("", "", 0);
    EditAppliesExactly(s, Edit("", newText), index);
  }

  // An edit puts its new text where its old text was, and nothing else moves.
  lemma EditReplacesTheOccurrence(s: string, edit: Edit, index: nat, k: nat)
    requires Step(s, edit, index).Ok? && OccursAt(s, edit.oldText, k)
    ensures k + |edit.oldText| <= |s| && Step(s, edit, index) == Ok(Splice(s, k, |edit.oldText|, edit.newText))
    ensures OccursAt(Step(s, edit, index).markdown, edit.newText, k)
  {
    EditAppliesExactly(s, edit, index);
    IndexOfIsFirst(s, edit.oldText, 0);
    SpliceHolds(s, k, |edit.oldText|, edit.newText);
  }

  lemma SpliceHolds(s: string, k: nat, n: nat, middle: string)
    requires k + n <= |s|
    ensures OccursAt(Splice(s, k, n, middle), middle, k)
  {
    assert Splice(s, k, n, middle)[k..k + |middle|] == middle;
  }

  // --------------------------------------------------------------------
  // All edits, in turn
  // --------------------------------------------------------------------

  // `index` edits have been applied already.
  function Apply(s: string, edits: seq<Edit>, index: nat): Result
    decreases |edits|
  {
    if edits == [] then Ok(s)
    else
      match Step(s, edits[0], index)
      case Ok(next) => Apply(next, edits[1..], index + 1)
      case failed => failed
  }

  method ApplyArticleTextEdits(markdown: string, edits: seq<Edit>) returns (r: Result)
    ensures r == Apply(markdown, edits, 0)
  {
    var next := markdown;
    assert edits[0..] == edits;
    for editIndex := 0 to |edits|
      invariant Apply(markdown, edits, 0) == Apply(next, edits[editIndex..], editIndex)
    {
      var edit := edits[editIndex];
      assert edits[editIndex..][1..] == edits[editIndex + 1..];
      var first := IndexOf(next, edit.oldText, 0);
      if first == -1 { return Failed(NotFound, editIndex); }
      var second := IndexOf(next, edit.oldText, first + 1);
      if second != -1 { return Failed(Ambiguous, editIndex); }
      next := next[..first] + edit.newText + next[first + |edit.oldText|..];
    }
    return Ok(next);
  }

  lemma ApplyFirst(s: string, edits: seq<Edit>, edit: Edit, rest: seq<Edit>, index: nat)
    requires edits == [edit] + rest
    ensures Apply(s, edits, index)
         == match Step(s, edit, index)
            case Ok(next) => Apply(next, rest, index + 1)
            case failed => failed
  {
    assert edits[1..] == rest;
  }

  lemma {:induction false} ApplyInTwo(s: string, first: seq<Edit>, second: seq<Edit>, index: nat)
    ensures Apply(s, first + second, index)
         == match Apply(s, first, index)
            case Ok(t) => Apply(t, second, index + |first|)
            case failed => failed
    decreases |first|
  {
    if first == [] {
      assert first + second == second;
    } else {
      var edit, rest := first[0], first[1..];
      FirstAndRest(first, 1, second);
      ApplyFirst(s, first, edit, rest, index);
      ApplyFirst(s, first + second, edit, rest + second, index);
      match Step(s, edit, index)
      case Ok(next) => ApplyInTwo(next, rest, second, index + 1);
      case failed =>
    }
  }

  // `failed` names an edit whose predecessors all apply and which fails on what they
  // leave.
  predicate NamesBadEdit(s: string, edits: seq<Edit>, index: nat, failed: Result) {
    failed.Failed? && index <= failed.editIndex < index + |edits| &&
    var k := failed.editIndex - index;
    Apply(s, edits[..k], index).Ok? && Step(Apply(s, edits[..k], index).markdown, edits[k], failed.editIndex) == failed
  }

  lemma LaterEditIsNamed(s: string, next: string, edits: seq<Edit>, index: nat, failed: Result)
    requires edits != [] && Step(s, edits[0], index) == Ok(next)
    requires NamesBadEdit(next, edits[1..], index + 1, failed)
    ensures NamesBadEdit(s, edits, index, failed)
  {
    var k := failed.editIndex - index;
    assert edits[..k][0] == edits[0] && edits[..k][1..] == edits[1..][..k - 1];
  }

  // A failure names the first edit that cannot be applied: all before it apply, and
  // its old text is missing or not unique in what they leave.
  lemma {:induction false} FailureNamesTheFirstBadEdit(s: string, edits: seq<Edit>, index: nat)
    requires Apply(s, edits, index).Failed?
    ensures NamesBadEdit(s, edits, index, Apply(s, edits, index))
    decreases |edits|
  {
    match Step(s, edits[0], index)
    case Ok(next) =>
      FailureNamesTheFirstBadEdit(next, edits[1..], index + 1);
      LaterEditIsNamed(s, next, edits, index, Apply(s, edits, index));
    case failed =>
      assert edits[..0] == [];
  }

  // --------------------------------------------------------------------
  // Undoing
  // --------------------------------------------------------------------

  function Swapped(edits: seq<Edit>): (r: seq<Edit>)
    ensures |r| == |edits|
  {
    if edits == [] then []
    else Swapped(edits[1..]) + [Edit(edits[0].newText, edits[0].oldText)]
  }

  // Whether each edit's new text is unique in the document that edit leaves.
  ghost predicate NewTextsAreUnique(s: string, edits: seq<Edit>, index: nat)
    requires Apply(s, edits, index).Ok?
    decreases |edits|
  {
    edits == [] ||
    var next := Step(s, edits[0], index).markdown;
    edits[0].newText != "" && OccursOnce(next, edits[0].newText) && NewTextsAreUnique(next, edits[1..], index + 1)
  }

  lemma SpliceBack(s: string, k: nat, before: string, middle: string)
    requires OccursAt(s, before, k)
    ensures Splice(Splice(s, k, |before|, middle), k, |middle|, before) == s
  {
    assert s == s[..k] + before + s[k + |before|..];
  }

  // Swapping one edit either fails or gives back the text before it.
  lemma OneEditIsUndoneExactly(s: string, edit: Edit, index: nat, back: nat)
    requires Step(s, edit, index).Ok?
    ensures var next, undo := Step(s, edit, index).markdown, Edit(edit.newText, edit.oldText);
            && (Step(next, undo, back).Ok? <==> edit.newText != "" && OccursOnce(next, edit.newText))
            && (Step(next, undo, back).Ok? ==> Step(next, undo, back) == Ok(s))
  {
    var next, undo := Step(s, edit, index).markdown, Edit(edit.newText, edit.oldText);
    var k := IndexOf(s, edit.oldText, 0);
    IndexOfIsFirst(s, edit.oldText, 0);
    EditReplacesTheOccurrence(s, edit, index, k);
    EditAppliesExactly(next, undo, back);
    if Step(next, undo, back).Ok? {
      EditReplacesTheOccurrence(next, undo, back, k);
      SpliceBack(s, k, edit.oldText, edit.newText);
    }
  }

  // Applying the swapped edits in reverse restores the text exactly when each new
  // text is unique after its own step; otherwise it fails, and never gives a
  // different text.
  lemma {:induction false} ReversedEditsRestoreExactly(s: string, edits: seq<Edit>, index: nat, back: nat)
    requires Apply(s, edits, index).Ok?
    ensures Apply(Apply(s, edits, index).markdown, Swapped(edits), back) == Ok(s)
       <==> NewTextsAreUnique(s, edits, index)
    ensures Apply(Apply(s, edits, index).markdown, Swapped(edits), back).Ok? <==> NewTextsAreUnique(s, edits, index)
    decreases |edits|
  {
    if edits != [] {
      var next := Step(s, edits[0], index).markdown;
      var undo := Edit(edits[0].newText, edits[0].oldText);
      var later, final := edits[1..], Apply(s, edits, index).markdown;
      ReversedEditsRestoreExactly(next, later, index + 1, back);
      OneEditIsUndoneExactly(s, edits[0], index, back + |later|);
      ApplyInTwo(final, Swapped(later), [undo], back);
      assert [undo][1..] == [];
    }
  }
}
