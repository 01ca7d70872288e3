// Dropping a reasoning model's scratchpad in one pass
// (apps/api/src/ai/ai-completion.service.ts).
module ThinkTags {
  import opened Basics
  import opened Text

  const OPEN: string := "<think>"
  const CLOSE: string := "</think>"

  // Case folding of the /i flag, as far as the tags' letters go.
  function FoldChar(c: char): char {
    if 'A' <= c <= 'Z' then c - 'A' + 'a' else c
  }

  predicate TagAt(s: string, tag: string, k: int) {
    0 <= k <= |s| - |tag| && forall i | 0 <= i < |tag| :: FoldChar(s[k + i]) == tag[i]
  }

  // What the expressions match: the tags with their letters in either case.
  lemma TagsAreMatchedInAnyCase(s: string, k: nat)
    ensures TagAt(s, OPEN, k)
       <==> && k + 7 <= |s| && s[k] == '<' && s[k + 1] in {'t', 'T'} && s[k + 2] in {'h', 'H'} && s[k + 3] in {'i', 'I'}
            && s[k + 4] in {'n', 'N'} && s[k + 5] in {'k', 'K'} && s[k + 6] == '>'
    ensures TagAt(s, CLOSE, k)
       <==> && k + 8 <= |s| && s[k] == '<' && s[k + 1] == '/' && s[k + 2] in {'t', 'T'} && s[k + 3] in {'h', 'H'}
            && s[k + 4] in {'i', 'I'} && s[k + 5] in {'n', 'N'} && s[k + 6] in {'k', 'K'} && s[k + 7] == '>'
  {
    var open, close := OPEN, CLOSE;
    assert open[0] == '<' && open[1] == 't' && open[2] == 'h' && open[3] == 'i' && open[4] == 'n' && open[5] == 'k';
    assert close[0] == '<' && close[1] == '/' && close[2] == 't' && close[3] == 'h' && close[4] == 'i';
    assert open[6] == '>' && close[5] == 'n' && close[6] == 'k' && close[7] == '>';
  }

  // A text with the positions at which opening and closing tags begin.
  datatype Marked = Marked(text: string, opens: set<nat>, closes: set<nat>) {
    predicate Tag(k: nat) { k in opens || k in closes }

    // Tags lie inside the text and none begins inside another.
    ghost predicate Proper() {
      && (forall k | k in opens :: k + |OPEN| <= |text| && k !in closes && forall j | k < j < k + |OPEN| :: !Tag(j))
      && (forall k | k in closes :: k + |CLOSE| <= |text| && forall j | k < j < k + |CLOSE| :: !Tag(j))
    }
  }

  function Mark(s: string): Marked {
    Marked(s, set k: nat | 0 <= k < |s| && TagAt(s, OPEN, k), set k: nat | 0 <= k < |s| && TagAt(s, CLOSE, k))
  }

  lemma TagStartsWithBracket(s: string, tag: string, k: int)
    requires (tag == OPEN || tag == CLOSE) && TagAt(s, tag, k)
    ensures s[k] == '<' && forall j | k < j < k + |tag| :: s[j] != '<'
  {
    assert FoldChar(s[k + 0]) == tag[0];
    forall j | k < j < k + |tag| ensures s[j] != '<' {
      assert FoldChar(s[k + (j - k)]) == tag[j - k] && tag[j - k] != '<';
    }
  }

  lemma MarkIsProper(s: string)
    ensures Mark(s).Proper()
  {
    var m := Mark(s);
    forall k: nat | m.Tag(k) ensures s[k] == '<' {
      if k in m.opens { TagStartsWithBracket(s, OPEN, k); } else { TagStartsWithBracket(s, CLOSE, k); }
    }
    forall k | k in m.opens ensures k + |OPEN| <= |s| && k !in m.closes && forall j | k < j < k + |OPEN| :: !m.Tag(j) {
      TagStartsWithBracket(s, OPEN, k);
      assert FoldChar(s[k + 1]) == OPEN[1] && OPEN[1] != CLOSE[1];
    }
    forall k | k in m.closes ensures k + |CLOSE| <= |s| && forall j | k < j < k + |CLOSE| :: !m.Tag(j) {
      TagStartsWithBracket(s, CLOSE, k);
    }
  }

  // --------------------------------------------------------------------
  // replace(/<think>[\s\S]*?<\/think>/gi, ''), position by position
  // --------------------------------------------------------------------

  // The first closing tag at or after `from`.
  function FirstClose(m: Marked, from: nat): (r: int)
    ensures r == -1 || (from <= r && r in m.closes)
    ensures forall k: nat | from <= k < |m.text| && (r == -1 || k < r) :: k !in m.closes
    decreases |m.text| - from
  {
    if from in m.closes then from
    else if from >= |m.text| then -1
    else FirstClose(m, from + 1)
  }

  predicate MatchAt(m: Marked, k: nat) {
    k in m.opens && FirstClose(m, k + |OPEN|) != -1
  }

  // What the replacement leaves of the text from `from` on: at each position the
  // shortest match is dropped, and a position without a match keeps its character.
  function WithoutMatches(m: Marked, from: nat): string
    requires m.Proper() && from <= |m.text|
    decreases |m.text| - from
  {
    if from == |m.text| then ""
    else if MatchAt(m, from) then WithoutMatches(m, FirstClose(m, from + |OPEN|) + |CLOSE|)
    else [m.text[from]] + WithoutMatches(m, from + 1)
  }

  // --------------------------------------------------------------------
  // One pass over the tags
  // --------------------------------------------------------------------

  // The next tag of either kind: what matchAll(/<(\/?)think>/gi) yields.
  function NextTag(m: Marked, from: nat): (r: int)
    ensures r == -1 || (from <= r && m.Tag(r))
    decreases |m.text| - from
  {
    if m.Tag(from) then from
    else if from >= |m.text| then -1
    else NextTag(m, from + 1)
  }

  lemma {:induction false} NextTagIsFirst(m: Marked, from: nat)
    ensures var r := NextTag(m, from);
            forall k: nat | from <= k < |m.text| && (r == -1 || k < r) :: !m.Tag(k)
    decreases |m.text| - from
  {
    if !m.Tag(from) && from < |m.text| { NextTagIsFirst(m, from + 1); }
  }

  lemma ConsSlice(s: string, from: nat, upto: nat, tail: string)
    requires from < upto <= |s|
    ensures [s[from]] + (s[from + 1..upto] + tail) == s[from..upto] + tail
  {
    assert s[from..upto] == [s[from]] + s[from + 1..upto];
  }

  lemma EmptySlice(s: string, front: string, k: nat, tail: string)
    requires k <= |s|
    ensures front + s[k..k] + tail == front + tail
  {
    assert s[k..k] == "";
  }

  lemma {:induction false} NothingMatches(m: Marked, from: nat, upto: nat)
    requires m.Proper() && from <= upto <= |m.text| && forall k | from <= k < upto :: !MatchAt(m, k)
    ensures WithoutMatches(m, from) == m.text[from..upto] + WithoutMatches(m, upto)
    decreases upto - from
  {
    if from < upto {
      NothingMatches(m, from + 1, upto);
      ConsSlice(m.text, from, upto, WithoutMatches(m, upto));
    } else {
      EmptySlice(m.text, "", from, WithoutMatches(m, upto));
    }
  }

  lemma Glue(s: string, out: string, kept: nat, mid: nat, end: nat, tail: string)
    requires kept <= mid <= end <= |s|
    ensures out + s[kept..mid] + (s[mid..end] + tail) == out + s[kept..end] + tail
  {
    assert s[kept..end] == s[kept..mid] + s[mid..end];
  }

  // No opening tag is pending: the text before `kept` is in `out` already and
  // everything before `at` has been looked at.
  ghost predicate Copying(m: Marked, out: string, kept: nat, at: nat)
    requires m.Proper()
  {
    kept <= at <= |m.text| && WithoutMatches(m, 0) == out + m.text[kept..at] + WithoutMatches(m, at)
  }

  // The opening tag at `open` waits for a closing one.
  ghost predicate Pending(m: Marked, out: string, kept: nat, open: nat, at: nat)
    requires m.Proper()
  {
    && open in m.opens && kept <= open && open + |OPEN| <= at <= |m.text|
    && (forall k | open + |OPEN| <= k < at :: k !in m.closes)
    && WithoutMatches(m, 0) == out + m.text[kept..open] + WithoutMatches(m, open)
  }

  lemma SkipsPlainText(m: Marked, out: string, kept: nat, at: nat, upto: nat)
    requires m.Proper() && Copying(m, out, kept, at) && at <= upto <= |m.text|
    requires forall k: nat | at <= k < upto :: k !in m.opens
    ensures Copying(m, out, kept, upto)
  {
    NothingMatches(m, at, upto);
    Glue(m.text, out, kept, at, upto, WithoutMatches(m, upto));
  }

  lemma ClosesBlock(m: Marked, out: string, kept: nat, open: nat, at: nat, close: nat)
    requires m.Proper() && Pending(m, out, kept, open, at) && close in m.closes && at <= close
    requires forall k: nat | at <= k < close :: k !in m.closes
    ensures Copying(m, out + m.text[kept..open], close + |CLOSE|, close + |CLOSE|)
  {
    assert FirstClose(m, open + |OPEN|) == close;
    EmptySlice(m.text, out + m.text[kept..open], close + |CLOSE|, WithoutMatches(m, close + |CLOSE|));
  }

  // The four cases of the loop's step.
  lemma SeesFirstOpen(m: Marked, out: string, kept: nat, at: nat, tag: nat)
    requires m.Proper() && Copying(m, out, kept, at) && tag == NextTag(m, at) && tag in m.opens
    ensures Pending(m, out, kept, tag, tag + |OPEN|)
  {
    NextTagIsFirst(m, at);
    assert forall k: nat | at <= k < tag + |OPEN| && k != tag :: (k in m.opens || k in m.closes) ==> m.Tag(k);
    SkipsPlainText(m, out, kept, at, tag);
  }

  lemma SeesNextOpen(m: Marked, out: string, kept: nat, open: nat, at: nat, tag: nat)
    requires m.Proper() && Pending(m, out, kept, open, at) && tag == NextTag(m, at) && tag in m.opens
    ensures Pending(m, out, kept, open, tag + |OPEN|)
  {
    NextTagIsFirst(m, at);
    assert forall k: nat | at <= k < tag + |OPEN| && k != tag :: (k in m.opens || k in m.closes) ==> m.Tag(k);
  }

  lemma SeesLoneClose(m: Marked, out: string, kept: nat, at: nat, tag: nat)
    requires m.Proper() && Copying(m, out, kept, at) && tag == NextTag(m, at) && tag in m.closes
    ensures Copying(m, out, kept, tag + |CLOSE|)
  {
    NextTagIsFirst(m, at);
    assert forall k: nat | at <= k < tag + |CLOSE| && k != tag :: (k in m.opens || k in m.closes) ==> m.Tag(k);
    SkipsPlainText(m, out, kept, at, tag + |CLOSE|);
  }

  lemma SeesClose(m: Marked, out: string, kept: nat, open: nat, at: nat, tag: nat)
    requires m.Proper() && Pending(m, out, kept, open, at) && tag == NextTag(m, at) && tag in m.closes
    ensures Copying(m, out + m.text[kept..open], tag + |CLOSE|, tag + |CLOSE|)
  {
    NextTagIsFirst(m, at);
    assert forall k: nat | at <= k < tag && k in m.closes :: m.Tag(k);
    ClosesBlock(m, out, kept, open, at, tag);
  }

  // No tag is left: nothing more matches from `start` on.
  lemma EndsAt(m: Marked, out: string, kept: nat, start: nat)
    requires m.Proper() && kept <= start <= |m.text| && forall k: nat | start <= k < |m.text| :: !MatchAt(m, k)
    requires WithoutMatches(m, 0) == out + m.text[kept..start] + WithoutMatches(m, start)
    ensures WithoutMatches(m, 0) == out + m.text[kept..]
  {
    NothingMatches(m, start, |m.text|);
    Glue(m.text, out, kept, start, |m.text|, "");
    assert m.text[kept..|m.text|] == m.text[kept..];
  }

  lemma EndsCopying(m: Marked, out: string, kept: nat, at: nat)
    requires m.Proper() && Copying(m, out, kept, at) && NextTag(m, at) == -1
    ensures WithoutMatches(m, 0) == out + m.text[kept..]
  {
    NextTagIsFirst(m, at);
    forall k: nat | at <= k < |m.text| ensures !MatchAt(m, k) { assert k in m.opens ==> m.Tag(k); }
    EndsAt(m, out, kept, at);
  }

  lemma EndsPending(m: Marked, out: string, kept: nat, open: nat, at: nat)
    requires m.Proper() && Pending(m, out, kept, open, at) && NextTag(m, at) == -1
    ensures WithoutMatches(m, 0) == out + m.text[kept..]
  {
    NextTagIsFirst(m, at);
    forall k: nat | open <= k < |m.text| ensures !MatchAt(m, k) {
      var r := FirstClose(m, k + |OPEN|);
      assert k in m.opens ==> k + |OPEN| <= |m.text|;
      assert r >= 0 ==> m.Tag(r) && r + |CLOSE| <= |m.text|;
    }
    EndsAt(m, out, kept, open);
  }

  method RemoveClosedBlocks(m: Marked) returns (text: string)
    requires m.Proper()
    ensures text == WithoutMatches(m, 0)
  {
    var out := "";
    var kept: nat := 0;
    var open := -1;
    var at: nat := 0;
    var tag := NextTag(m, at);
    while tag != -1
      invariant tag == NextTag(m, at) && at <= |m.text|
      invariant open < 0 ==> Copying(m, out, kept, at)
      invariant open >= 0 ==> Pending(m, out, kept, open, at)
      decreases |m.text| - at
    {
      if tag in m.opens {
        if open < 0 {
          SeesFirstOpen(m, out, kept, at, tag);
          open := tag;
        } else {
          SeesNextOpen(m, out, kept, open, at, tag);
        }
        at := tag + |OPEN|;
      } else {
        if open >= 0 {
          SeesClose(m, out, kept, open, at, tag);
          out := out + m.text[kept..open];
          kept := tag + |CLOSE|;
          open := -1;
        } else {
          SeesLoneClose(m, out, kept, at, tag);
        }
        at := tag + |CLOSE|;
      }
      tag := NextTag(m, at);
    }
    if open < 0 { EndsCopying(m, out, kept, at); } else { EndsPending(m, out, kept, open, at); }
    text := out + m.text[kept..];
  }

  // The documented meaning: the regular expression's result, trimmed.
  function Stripped(raw: string): string {
    MarkIsProper(raw);
    Trim(WithoutMatches(Mark(raw), 0))
  }

  method StripThinkTags(raw: string) returns (text: string)
    ensures text == Stripped(raw)
  {
    MarkIsProper(raw);
    text := RemoveClosedBlocks(Mark(raw));
    text := Trim(text);
  }

  // --------------------------------------------------------------------
  // What is left
  // --------------------------------------------------------------------

  // With no closing tag after an opening one, nothing is removed.
  lemma UnclosedTextStays(raw: string)
    requires forall k: nat | k < |raw| :: TagAt(raw, OPEN, k) ==> forall j: nat | k < j < |raw| :: !TagAt(raw, CLOSE, j)
    ensures Stripped(raw) == Trim(raw)
  {
    MarkIsProper(raw);
    var m := Mark(raw);
    forall k: nat | k < |raw| ensures !MatchAt(m, k) {
      var r := FirstClose(m, k + |OPEN|);
      assert r >= 0 ==> TagAt(raw, CLOSE, r) && r < |raw|;
    }
    NothingMatches(m, 0, |raw|);
    assert raw[0..|raw|] == raw && WithoutMatches(m, 0) == raw;
  }

  lemma {:induction false} MatchesAddNothing(m: Marked, from: nat, c: char)
    requires m.Proper() && from <= |m.text| && Lacks(m.text, c)
    ensures Lacks(WithoutMatches(m, from), c)
    decreases |m.text| - from
  {
    if from == |m.text| {
    } else if MatchAt(m, from) {
      MatchesAddNothing(m, FirstClose(m, from + |OPEN|) + |CLOSE|, c);
    } else {
      MatchesAddNothing(m, from + 1, c);
    }
  }

  // No character appears that was not there.
  lemma StrippedLacks(raw: string, c: char)
    requires Lacks(raw, c)
    ensures Lacks(Stripped(raw), c)
  {
    MarkIsProper(raw);
    MatchesAddNothing(Mark(raw), 0, c);
    var a, b := TrimIsSlice(WithoutMatches(Mark(raw), 0));
  }
}
