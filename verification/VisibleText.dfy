// The visible part of a reply: everything from an unclosed <think> on is cut off
// (apps/api/src/ai/ai-completion.service.ts). The cut is made in the original
// text at an index found in its lower-cased copy, which can be longer.
module VisibleText {
  import opened Basics
  import opened Text
  import opened ThinkTags

  // toLowerCase of one character, as far as it can produce the tag's letters:
  // ASCII capitals, the Kelvin sign, and the dotted capital I, the one character
  // whose lower case is two.
  function LowerChar(c: char): (l: string)
    ensures 1 <= |l| <= 2 && (|l| == 2 <==> c == '\U{0130}')
  {
    if 'A' <= c <= 'Z' then [c - 'A' + 'a']
    else if c == '\U{212A}' then "k"
    else if c == '\U{0130}' then ['i', '\U{0307}']
    else [c]
  }

  function Lower(s: string): string {
    if s == "" then "" else LowerChar(s[0]) + Lower(s[1..])
  }

  // The dotted capital Is in a text: what lower-casing adds to its length.
  function Dotted(s: string): nat {
    if s == "" then 0 else (if s[0] == '\U{0130}' then 1 else 0) + Dotted(s[1..])
  }

  // An opening tag as toLowerCase sees one.
  ghost predicate OpenLikeAt(s: string, tag: string, p: int) {
    0 <= p <= |s| - |tag| && forall i | 0 <= i < |tag| :: LowerChar(s[p + i]) == [tag[i]]
  }

  // The letters of a tag in either case, and the Kelvin sign for its K.
  lemma OpenTagIsSeenInAnyCase(s: string, p: nat)
    ensures OpenLikeAt(s, OPEN, p)
       <==> && p + 7 <= |s| && s[p] == '<' && s[p + 1] in {'t', 'T'} && s[p + 2] in {'h', 'H'} && s[p + 3] in {'i', 'I'}
            && s[p + 4] in {'n', 'N'} && s[p + 5] in {'k', 'K', '\U{212A}'} && s[p + 6] == '>'
  {
    var open := OPEN;
    assert open[0] == '<' && open[1] == 't' && open[2] == 'h' && open[3] == 'i' && open[4] == 'n' && open[5] == 'k';
    assert open[6] == '>';
  }

  ghost predicate ShowsTag(s: string, tag: string) { exists p :: OpenLikeAt(s, tag, p) }

  // slice(0, end), which stops at the end of the text.
  function SliceTo(s: string, end: nat): string { s[..Min(end, |s|)] }

  function Visible(stripped: string, tag: string): string {
    var open := IndexOf(Lower(stripped), tag, 0);
    Trim(if open >= 0 then SliceTo(stripped, open) else stripped)
  }

  // --------------------------------------------------------------------
  // Positions in a text and in its lower-cased copy
  // --------------------------------------------------------------------

  // What the index arithmetic needs of the tag; OPEN has it.
  ghost predicate Plain(tag: string) {
    && tag != "" && tag[0] == '<' && tag[|tag| - 1] == '>'
    && forall i | 0 <= i < |tag| :: tag[i] != '\U{0307}'
  }

  lemma OpenIsPlain()
    ensures Plain(OPEN)
  {
  }

  lemma {:induction false} LowerSize(s: string)
    ensures |Lower(s)| == |s| + Dotted(s)
  {
    if s != "" { LowerSize(s[1..]); }
  }

  lemma LowerOfFirst(s: string, c: char, rest: string)
    requires s == [c] + rest
    ensures Lower(s) == LowerChar(c) + Lower(rest)
  {
    assert s[1..] == rest;
  }

  lemma {:induction false} LowerConcat(s: string, a: string, b: string)
    requires s == a + b
    ensures Lower(s) == Lower(a) + Lower(b)
    decreases |a|
  {
    if a == "" {
      assert s == b;
    } else {
      var c, rest := a[0], a[1..];
      LowerConcat(rest + b, rest, b);
      assert a == [c] + rest && s == [c] + (rest + b);
      LowerOfFirst(a, c, rest);
      LowerOfFirst(s, c, rest + b);
    }
  }

  lemma LowerLength(s: string, p: nat)
    requires p <= |s|
    ensures |Lower(s[..p])| == p + Dotted(s[..p])
    ensures Lower(s) == Lower(s[..p]) + Lower(s[p..])
  {
    assert s == s[..p] + s[p..];
    LowerSize(s[..p]);
    LowerConcat(s, s[..p], s[p..]);
  }

  // Lower(s) starts with `tag` exactly when the characters of `s` lower to it one by one.
  lemma {:induction false} LowerStartsWith(s: string, tag: string)
    requires tag == "" || tag[|tag| - 1] == '>'
    requires forall i | 0 <= i < |tag| :: tag[i] != '\U{0307}'
    ensures tag <= Lower(s) <==> OpenLikeAt(s, tag, 0)
    decreases |tag|
  {
    if tag != "" && s != "" {
      LowerStartsWith(s[1..], tag[1..]);
      var l := LowerChar(s[0]);
      assert Lower(s)[0] == l[0];
      if |l| == 2 {
        assert Lower(s)[1] == '\U{0307}';
        assert tag <= Lower(s) ==> |tag| == 1;
      } else {
        assert Lower(s) == l + Lower(s[1..]) && Lower(s)[1..] == Lower(s[1..]);
        assert tag == [tag[0]] + tag[1..];
        if OpenLikeAt(s, tag, 0) {
          forall i | 0 <= i < |tag[1..]| ensures LowerChar(s[1..][0 + i]) == [tag[1..][i]] {
            assert LowerChar(s[0 + (i + 1)]) == [tag[i + 1]];
          }
        }
        if OpenLikeAt(s[1..], tag[1..], 0) && l == [tag[0]] {
          forall i | 0 <= i < |tag| ensures LowerChar(s[0 + i]) == [tag[i]] {
            if i > 0 { assert LowerChar(s[1..][0 + (i - 1)]) == [tag[1..][i - 1]]; }
          }
        }
      }
    }
  }

  lemma OpenLikeIsOccurrence(s: string, low: string, tag: string, p: nat, q: nat)
    requires Plain(tag) && p <= |s| && low == Lower(s) && q == p + Dotted(s[..p])
    ensures OpenLikeAt(s, tag, p) == OccursAt(low, tag, q)
  {
    LowerLength(s, p);
    OccursAfter(low, q, Lower(s[..p]), Lower(s[p..]), tag);
    LowerStartsWith(s[p..], tag);
    TagsFrom(s, p, tag);
  }

  lemma OccursAfter(whole: string, q: nat, front: string, back: string, tag: string)
    requires whole == front + back && q == |front|
    ensures OccursAt(whole, tag, q) == (tag <= back)
  {
    if |tag| <= |back| { assert whole[q..q + |tag|] == back[..|tag|]; }
  }

  lemma TagsFrom(s: string, p: nat, tag: string)
    requires p <= |s|
    ensures OpenLikeAt(s[p..], tag, 0) == OpenLikeAt(s, tag, p)
  {
    assert s[p..] == s[p..|s|];
    SliceTags(s, p, |s|, tag, 0);
  }

  // A tag lies in a slice exactly when it lies in the text between the slice's ends.
  lemma SliceTags(s: string, a: nat, b: nat, tag: string, p: nat)
    requires a <= b <= |s|
    ensures OpenLikeAt(s[a..b], tag, p) <==> a + p + |tag| <= b && OpenLikeAt(s, tag, a + p)
  {
    var t := s[a..b];
    if OpenLikeAt(t, tag, p) {
      forall i | 0 <= i < |tag| ensures LowerChar(s[a + p + i]) == [tag[i]] { assert LowerChar(t[p + i]) == [tag[i]]; }
    }
    if a + p + |tag| <= b && OpenLikeAt(s, tag, a + p) {
      forall i | 0 <= i < |tag| ensures LowerChar(t[p + i]) == [tag[i]] { assert LowerChar(s[a + p + i]) == [tag[i]]; }
    }
  }

  // Every '<' of the lower-cased copy comes from a character of the text.
  lemma {:induction false} BracketComesFrom(s: string, q: nat) returns (p: nat)
    requires q < |Lower(s)| && Lower(s)[q] == '<'
    ensures p < |s| && q == p + Dotted(s[..p])
  {
    var l := LowerChar(s[0]);
    if q < |l| {
      p := 0;
      assert s[..0] == "";
    } else {
      p := BracketComesFrom(s[1..], q - |l|);
      p := p + 1;
      assert s[..p][0] == s[0] && s[..p][1..] == s[1..][..p - 1];
    }
  }

  ghost predicate FirstOpenLike(s: string, tag: string, p: nat) {
    OpenLikeAt(s, tag, p) && forall j: nat | j < p :: !OpenLikeAt(s, tag, j)
  }

  lemma {:induction false} DottedIsMonotone(s: string, j: nat, p: nat)
    requires j <= p <= |s|
    ensures Dotted(s[..j]) <= Dotted(s[..p])
    decreases p
  {
    if j > 0 {
      DottedIsMonotone(s[1..], j - 1, p - 1);
      assert s[..j][0] == s[0] && s[..j][1..] == s[1..][..j - 1];
      assert s[..p][0] == s[0] && s[..p][1..] == s[1..][..p - 1];
    } else {
      assert s[..0] == "";
    }
  }

  // The index found in the copy is the position of the first tag plus the dotted
  // capital Is before it.
  lemma IndexIsShifted(s: string, tag: string)
    requires Plain(tag)
    ensures IndexOf(Lower(s), tag, 0) == -1 <==> !ShowsTag(s, tag)
    ensures forall p: nat | FirstOpenLike(s, tag, p) :: IndexOf(Lower(s), tag, 0) == p + Dotted(s[..p])
  {
    var low := Lower(s);
    var q := IndexOf(low, tag, 0);
    IndexOfIsFirst(low, tag, 0);
    forall p: nat | OpenLikeAt(s, tag, p) ensures OccursAt(low, tag, p + Dotted(s[..p])) {
      OpenLikeIsOccurrence(s, low, tag, p, p + Dotted(s[..p]));
    }
    if q != -1 {
      CharsOf(low, tag, q);
      assert low[q + 0] == '<';
      var j := BracketComesFrom(s, q);
      OpenLikeIsOccurrence(s, low, tag, j, q);
      forall p: nat | FirstOpenLike(s, tag, p) ensures q == p + Dotted(s[..p]) { DottedIsMonotone(s, p, j); }
    }
  }

  lemma IndexOfFirst(s: string, tag: string, p: nat)
    requires Plain(tag) && FirstOpenLike(s, tag, p)
    ensures IndexOf(Lower(s), tag, 0) == p + Dotted(s[..p])
  {
    IndexIsShifted(s, tag);
  }

  // Trimming neither hides nor makes a tag.
  lemma TrimKeepsTags(s: string, t: string, tag: string)
    requires Plain(tag) && t == Trim(s)
    ensures ShowsTag(t, tag) == ShowsTag(s, tag)
  {
    var a, b := TrimIsSlice(s);
    if p :| OpenLikeAt(t, tag, p) { SliceTags(s, a, b, tag, p); }
    if p :| OpenLikeAt(s, tag, p) {
      assert LowerChar(s[p + 0]) == ['<'] && LowerChar(s[p + (|tag| - 1)]) == ['>'];
      assert !IsSpace(s[p]) && !IsSpace(s[p + |tag| - 1]);
      SliceTags(s, a, b, tag, p - a);
    }
  }

  // --------------------------------------------------------------------
  // Is the scratchpad hidden?
  // --------------------------------------------------------------------

  // The visible text shows an opening tag exactly when at least as many dotted
  // capital Is as the tag has characters come before the first one.
  lemma TagShowsExactlyAfterDottedIs(stripped: string, tag: string, p: nat, visible: string)
    requires Plain(tag) && FirstOpenLike(stripped, tag, p) && visible == Visible(stripped, tag)
    ensures ShowsTag(visible, tag) <==> Dotted(stripped[..p]) >= |tag|
  {
    var d := Dotted(stripped[..p]);
    IndexOfFirst(stripped, tag, p);
    VisibleIsFront(stripped, tag, p + d);
    TrimKeepsTags(stripped[0..Min(p + d, |stripped|)], visible, tag);
    ShowsInFront(stripped, tag, p, Min(p + d, |stripped|));
  }

  lemma VisibleIsFront(stripped: string, tag: string, open: nat)
    requires IndexOf(Lower(stripped), tag, 0) == open
    ensures Visible(stripped, tag) == Trim(stripped[0..Min(open, |stripped|)])
  {
    assert SliceTo(stripped, open) == stripped[0..Min(open, |stripped|)];
  }

  lemma ShowsInFront(s: string, tag: string, p: nat, end: nat)
    requires FirstOpenLike(s, tag, p) && end <= |s|
    ensures ShowsTag(s[0..end], tag) == (p + |tag| <= end)
  {
    SliceTags(s, 0, end, tag, p);
    forall q: nat | OpenLikeAt(s[0..end], tag, q) ensures p <= q && q + |tag| <= end { SliceTags(s, 0, end, tag, q); }
  }

  lemma TagShowsAt(stripped: string, text: string, p: nat)
    requires text == Visible(stripped, OPEN) && FirstOpenLike(stripped, OPEN, p)
    ensures ShowsTag(text, OPEN) <==> Dotted(stripped[..p]) >= |OPEN|
  {
    OpenIsPlain();
    TagShowsExactlyAfterDottedIs(stripped, OPEN, p, text);
  }

  // So a text without dotted capital Is never shows one, whatever else is in it.
  lemma TagIsHiddenWithoutDottedIs(content: string)
    requires Lacks(content, '\U{0130}')
    ensures !ShowsTag(Visible(Stripped(content), OPEN), OPEN)
  {
    var stripped := Stripped(content);
    StrippedLacks(content, '\U{0130}');
    OpenIsPlain();
    if ShowsTag(stripped, OPEN) {
      var p := FirstOf(stripped, OPEN, 0);
      NoneDotted(stripped[..p]);
      TagShowsAt(stripped, Visible(stripped, OPEN), p);
    } else {
      IndexIsShifted(stripped, OPEN);
      TrimKeepsTags(stripped, Visible(stripped, OPEN), OPEN);
    }
  }

  lemma {:induction false} NoneDotted(s: string)
    requires Lacks(s, '\U{0130}')
    ensures Dotted(s) == 0
  {
    if s != "" { NoneDotted(s[1..]); }
  }

  lemma {:induction false} FirstOf(s: string, tag: string, from: nat) returns (p: nat)
    requires exists k: nat :: OpenLikeAt(s, tag, k) && from <= k
    requires forall k: nat | k < from :: !OpenLikeAt(s, tag, k)
    ensures FirstOpenLike(s, tag, p)
    decreases |s| - from
  {
    if OpenLikeAt(s, tag, from) { p := from; } else { p := FirstOf(s, tag, from + 1); }
  }

  // Seven of them in front of an unclosed tag let the whole tag through.
  lemma TagLeaks(content: string)
    requires content == seq(|OPEN|, _ => '\U{0130}') + OPEN
    ensures Stripped(content) == content
    ensures ShowsTag(Visible(Stripped(content), OPEN), OPEN)
  {
    LeakIsNotStripped(content);
    LeakOpensAtItsEnd(content);
    AllDotted(content[..|OPEN|]);
    TagShowsAt(content, Visible(content, OPEN), |OPEN|);
  }

  lemma LeakOpensAtItsEnd(content: string)
    requires content == seq(|OPEN|, _ => '\U{0130}') + OPEN
    ensures FirstOpenLike(content, OPEN, |OPEN|)
  {
    var p := |OPEN|;
    forall i | 0 <= i < |OPEN| ensures LowerChar(content[p + i]) == [OPEN[i]] { assert content[p + i] == OPEN[i]; }
    forall j: nat | j < p ensures !OpenLikeAt(content, OPEN, j) {
      assert LowerChar(content[j + 0]) != [OPEN[0]];
    }
  }

  lemma LeakIsNotStripped(content: string)
    requires content == seq(|OPEN|, _ => '\U{0130}') + OPEN
    ensures Stripped(content) == content
  {
    forall j: nat ensures !TagAt(content, CLOSE, j) {
      assert j + |CLOSE| <= |content| ==> FoldChar(content[j + 1]) != CLOSE[1];
    }
    UnclosedTextStays(content);
    TrimKeepsAll(content);
  }

  lemma {:induction false} AllDotted(s: string)
    requires forall k | 0 <= k < |s| :: s[k] == '\U{0130}'
    ensures Dotted(s) == |s|
  {
    if s != "" { AllDotted(s[1..]); }
  }

  // --------------------------------------------------------------------
  // The function itself
  // --------------------------------------------------------------------

  // What is shown of a stripped text: all of it up to its first opening tag, plus one
  // character for every dotted capital I before that tag.
  ghost predicate CutAtFirstTag(stripped: string, text: string) {
    && (!ShowsTag(stripped, OPEN) ==> text == Trim(stripped))
    && forall p: nat | FirstOpenLike(stripped, OPEN, p) ::
         && text == Trim(SliceTo(stripped, p + Dotted(stripped[..p])))
         && (ShowsTag(text, OPEN) <==> Dotted(stripped[..p]) >= |OPEN|)
  }

  lemma VisibleEndsAt(stripped: string, p: nat)
    requires FirstOpenLike(stripped, OPEN, p)
    ensures Visible(stripped, OPEN) == Trim(SliceTo(stripped, p + Dotted(stripped[..p])))
  {
    OpenIsPlain();
    IndexOfFirst(stripped, OPEN, p);
  }

  lemma VisibleIsCut(stripped: string, text: string)
    requires text == Visible(stripped, OPEN)
    ensures CutAtFirstTag(stripped, text)
  {
    if !ShowsTag(stripped, OPEN) {
      OpenIsPlain();
      IndexIsShifted(stripped, OPEN);
    }
    forall p: nat | FirstOpenLike(stripped, OPEN, p)
      ensures text == Trim(SliceTo(stripped, p + Dotted(stripped[..p])))
      ensures ShowsTag(text, OPEN) <==> Dotted(stripped[..p]) >= |OPEN|
    {
      VisibleEndsAt(stripped, p);
      TagShowsAt(stripped, text, p);
    }
  }

  // A text without dotted capital Is never shows an opening tag.
  method VisibleText(content: string) returns (text: string)
    ensures text == Visible(Stripped(content), OPEN)
    ensures CutAtFirstTag(Stripped(content), text)
    ensures Lacks(content, '\U{0130}') ==> !ShowsTag(text, OPEN)
  {
    var stripped := StripThinkTags(content);
    var open := IndexOf(Lower(stripped), OPEN, 0);
    text := Trim(if open >= 0 then SliceTo(stripped, open) else stripped);
    VisibleIsCut(stripped, text);
    if Lacks(content, '\U{0130}') { TagIsHiddenWithoutDottedIs(content); }
  }
}
