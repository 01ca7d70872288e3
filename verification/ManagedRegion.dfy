// The region of a Markdown article that an integration manages, and the merge
// that installs a new one (apps/api/src/articles/articles.service.ts). The two
// markers are a parameter; MARKERS are the ones in use.
module ManagedRegion {
  import opened Basics
  import opened Text

  datatype Markers = Markers(start: string, end: string)

  const MARKERS: Markers :=
    Markers("<!-- weavestream:breeze:managed:start -->", "<!-- weavestream:breeze:managed:end -->")

  // What the merge relies on: a marker opens with a character it has nowhere
  // else, and closes with one it has nowhere else; both markers alike.
  ghost predicate Bracketed(m: string, open: char, close: char) {
    && |m| >= 2 && m[0] == open && m[|m| - 1] == close
    && (forall i | 0 < i < |m| :: m[i] != open)
    && (forall i | 0 <= i < |m| - 1 :: m[i] != close)
  }

  ghost predicate Proper(ms: Markers) {
    Bracketed(ms.start, '<', '>') && Bracketed(ms.end, '<', '>')
  }

  lemma MarkersInUseAreProper()
    ensures Proper(MARKERS)
  {
    StartMarkerIsBracketed("<!-- weavestream:breeze:managed:start -->");
    EndMarkerIsBracketed("<!-- weavestream:breeze:managed:end -->");
  }

  lemma StartMarkerIsBracketed(m: string)
    requires m == "<!-- weavestream:breeze:managed:start -->"
    ensures Bracketed(m, '<', '>')
  {
  }

  lemma EndMarkerIsBracketed(m: string)
    requires m == "<!-- weavestream:breeze:managed:end -->"
    ensures Bracketed(m, '<', '>')
  {
  }

  datatype Region = Region(starts: nat, ends: nat, start: int, end: int) {
    predicate Valid() { starts == 1 && ends == 1 && start < end }
  }

  function Find(ms: Markers, markdown: string): Region
    requires ms.start != "" && ms.end != ""
  {
    Region(SplitCount(markdown, ms.start), SplitCount(markdown, ms.end),
           IndexOf(markdown, ms.start, 0), IndexOf(markdown, ms.end, 0))
  }

  predicate HasNoMarkers(ms: Markers, markdown: string)
    requires ms.start != "" && ms.end != ""
  {
    Find(ms, markdown).starts == 0 && Find(ms, markdown).ends == 0
  }

  // None stands for the refusal of a missing or malformed region.
  function Merge(ms: Markers, existing: string, incoming: string, fingerprintUnchanged: bool): Option<string>
    requires Proper(ms)
  {
    var current, next := Find(ms, existing), Find(ms, incoming);
    if HasNoMarkers(ms, existing) && HasNoMarkers(ms, incoming) then Some(incoming)
    else if !current.Valid() || !next.Valid() then None
    else if fingerprintUnchanged then Some(existing)
    else
      MarkersFit(ms, existing);
      MarkersFit(ms, incoming);
      Some(existing[..current.start] + incoming[next.start..next.end + |ms.end|] + existing[current.end + |ms.end|..])
  }

  // --------------------------------------------------------------------
  // Well-formed documents
  // --------------------------------------------------------------------

  lemma MarkersFit(ms: Markers, doc: string)
    requires Proper(ms) && Find(ms, doc).Valid()
    ensures var r := Find(ms, doc); 0 <= r.start && r.start + |ms.start| <= r.end && r.end + |ms.end| <= |doc|
    ensures OnlyAt(doc, ms.start, Find(ms, doc).start) && OnlyAt(doc, ms.end, Find(ms, doc).end)
  {
    var r := Find(ms, doc);
    CountOneMeansOnly(doc, ms.start);
    CountOneMeansOnly(doc, ms.end);
    NoOverlap(doc, ms.start, ms.end, r.start, r.end);
  }

  // The three parts of a well-formed document.
  ghost function Before(ms: Markers, doc: string): string
    requires Proper(ms) && Find(ms, doc).Valid()
  {
    MarkersFit(ms, doc); doc[..Find(ms, doc).start]
  }

  ghost function Managed(ms: Markers, doc: string): string
    requires Proper(ms) && Find(ms, doc).Valid()
  {
    MarkersFit(ms, doc); doc[Find(ms, doc).start..Find(ms, doc).end + |ms.end|]
  }

  ghost function After(ms: Markers, doc: string): string
    requires Proper(ms) && Find(ms, doc).Valid()
  {
    MarkersFit(ms, doc); doc[Find(ms, doc).end + |ms.end|..]
  }

  ghost predicate Free(ms: Markers, part: string) {
    forall k :: !OccursAt(part, ms.start, k) && !OccursAt(part, ms.end, k)
  }

  // A managed region of its own: both markers at its ends and nowhere else.
  ghost predicate IsManaged(ms: Markers, r: string) {
    |r| >= |ms.start| + |ms.end| && OnlyAt(r, ms.start, 0) && OnlyAt(r, ms.end, |r| - |ms.end|)
  }

  lemma OccursInWhole(b: string, m: string, a: string, p: string, k: int)
    ensures OccursAt(b, p, k) ==> OccursAt(b + m + a, p, k)
    ensures OccursAt(m, p, k) ==> OccursAt(b + m + a, p, |b| + k)
    ensures OccursAt(a, p, k) ==> OccursAt(b + m + a, p, |b| + |m| + k)
  {
    OccursInFront(b, m + a, p, k);
    OccursInBack(b + m, a, p, k);
    OccursInFront(b + m, a, p, |b| + k);
    OccursInBack(b, m, p, k);
    assert b + m + a == b + (m + a);
  }

  lemma OccursInFront(front: string, back: string, p: string, k: int)
    ensures OccursAt(front, p, k) ==> OccursAt(front + back, p, k)
  {
    if OccursAt(front, p, k) { assert (front + back)[k..k + |p|] == front[k..k + |p|]; }
  }

  lemma OccursInBack(front: string, back: string, p: string, k: int)
    ensures OccursAt(back, p, k) ==> OccursAt(front + back, p, |front| + k)
  {
    if OccursAt(back, p, k) { assert (front + back)[|front| + k..|front| + k + |p|] == back[k..k + |p|]; }
  }

  // Cutting a document around its only start and end markers.
  lemma CutOnly(b: string, m: string, a: string, p: string, at: int)
    requires OnlyAt(b + m + a, p, at) && |b| <= at && at + |p| <= |b| + |m|
    ensures OnlyAt(m, p, at - |b|) && forall k :: !OccursAt(b, p, k) && !OccursAt(a, p, k)
    requires p != ""
  {
    OccursInPart(b, m, a, p, at);
    forall k ensures OccursAt(m, p, k) ==> k == at - |b| { OccursInWhole(b, m, a, p, k); }
    forall k ensures !OccursAt(b, p, k) && !OccursAt(a, p, k) { OccursInWhole(b, m, a, p, k); }
  }

  lemma CutInThree(doc: string, i: nat, j: nat)
    requires i <= j <= |doc|
    ensures doc == doc[..i] + doc[i..j] + doc[j..]
  {
  }

  lemma PartsAre(ms: Markers, doc: string, i: nat, j: nat)
    requires Proper(ms) && Find(ms, doc).Valid() && i == Find(ms, doc).start && j == Find(ms, doc).end + |ms.end|
    ensures i <= j <= |doc|
    ensures Before(ms, doc) == doc[..i] && Managed(ms, doc) == doc[i..j] && After(ms, doc) == doc[j..]
    ensures OnlyAt(doc, ms.start, i) && OnlyAt(doc, ms.end, j - |ms.end|) && i + |ms.start| + |ms.end| <= j
  {
    MarkersFit(ms, doc);
  }

  lemma CutByMarkers(ms: Markers, doc: string, b: string, m: string, a: string, i: nat, j: nat)
    requires Proper(ms) && doc == b + m + a && |b| == i && |b| + |m| == j && i + |ms.start| + |ms.end| <= j
    requires OnlyAt(doc, ms.start, i) && OnlyAt(doc, ms.end, j - |ms.end|)
    ensures IsManaged(ms, m) && Free(ms, b) && Free(ms, a)
  {
    CutOnly(b, m, a, ms.start, i);
    CutOnly(b, m, a, ms.end, j - |ms.end|);
  }

  lemma PartsOf(ms: Markers, doc: string)
    requires Proper(ms) && Find(ms, doc).Valid()
    ensures doc == Before(ms, doc) + Managed(ms, doc) + After(ms, doc)
    ensures IsManaged(ms, Managed(ms, doc)) && Free(ms, Before(ms, doc)) && Free(ms, After(ms, doc))
  {
    MarkersFit(ms, doc);
    var i, j := Find(ms, doc).start, Find(ms, doc).end + |ms.end|;
    PartsAre(ms, doc, i, j);
    CutInThree(doc, i, j);
    CutByMarkers(ms, doc, doc[..i], doc[i..j], doc[j..], i, j);
  }

  // A marker cannot appear across a splice: the region begins with the only
  // character a marker may begin with and ends with the only one it may end with.
  lemma NoMarkerAcrossSplice(b: string, m: string, a: string, p: string, k: int)
    requires Bracketed(p, '<', '>') && |m| >= 2 && m[0] == '<' && m[|m| - 1] == '>'
    requires OccursAt(b + m + a, p, k)
    ensures OccursAt(b, p, k) || OccursAt(m, p, k - |b|) || OccursAt(a, p, k - |b| - |m|)
  {
    var doc := b + m + a;
    CharsOf(doc, p, k);
    assert doc[|b|] == '<' && doc[|b| + |m| - 1] == '>';
    if k < |b| {
      assert k + |p| <= |b|;
      assert b[k..k + |p|] == p;
    } else if k < |b| + |m| {
      assert k + |p| <= |b| + |m|;
      OccursInPart(b, m, a, p, k);
    } else {
      assert a[k - |b| - |m|..k - |b| - |m| + |p|] == p;
    }
  }

  lemma SplicedOnlyAt(b: string, m: string, a: string, p: string, at: int)
    requires Bracketed(p, '<', '>') && |m| >= 2 && m[0] == '<' && m[|m| - 1] == '>'
    requires OnlyAt(m, p, at) && forall k :: !OccursAt(b, p, k) && !OccursAt(a, p, k)
    ensures OnlyAt(b + m + a, p, |b| + at)
    ensures SplitCount(b + m + a, p) == 1 && IndexOf(b + m + a, p, 0) == |b| + at
  {
    var doc := b + m + a;
    OccursInWhole(b, m, a, p, at);
    forall k | OccursAt(doc, p, k) ensures k == |b| + at { NoMarkerAcrossSplice(b, m, a, p, k); }
    CountOneMeansOnly(doc, p);
    IndexOfIsFirst(doc, p, 0);
  }

  lemma ManagedIsBracketed(ms: Markers, m: string)
    requires Proper(ms) && IsManaged(ms, m)
    ensures |m| >= 2 && m[0] == '<' && m[|m| - 1] == '>'
  {
    CharsOf(m, ms.start, 0);
    CharsOf(m, ms.end, |m| - |ms.end|);
    assert m[0 + 0] == '<' && m[|m| - |ms.end| + (|ms.end| - 1)] == '>';
  }

  lemma SplicedRegion(ms: Markers, doc: string, b: string, m: string, a: string)
    requires Proper(ms) && IsManaged(ms, m) && Free(ms, b) && Free(ms, a) && doc == b + m + a
    ensures Find(ms, doc) == Region(1, 1, |b|, |b| + |m| - |ms.end|)
  {
    ManagedIsBracketed(ms, m);
    SplicedOnlyAt(b, m, a, ms.start, 0);
    SplicedOnlyAt(b, m, a, ms.end, |m| - |ms.end|);
  }

  // Any managed region between parts free of markers is found again, in place.
  lemma SplicedIsWellFormed(ms: Markers, b: string, m: string, a: string)
    requires Proper(ms) && IsManaged(ms, m) && Free(ms, b) && Free(ms, a)
    ensures Find(ms, b + m + a).Valid()
    ensures Before(ms, b + m + a) == b && Managed(ms, b + m + a) == m && After(ms, b + m + a) == a
  {
    var doc := b + m + a;
    SplicedRegion(ms, doc, b, m, a);
    assert doc[..|b|] == b && doc[|b|..|b| + |m|] == m && doc[|b| + |m|..] == a;
  }

  // --------------------------------------------------------------------
  // What merging does
  // --------------------------------------------------------------------

  // One start marker and one end marker in the whole text, the end behind the start.
  ghost predicate HoldsOneRegion(ms: Markers, doc: string) {
    exists i, j :: i < j && OnlyAt(doc, ms.start, i) && OnlyAt(doc, ms.end, j)
  }

  lemma OnlyOneIsFound(doc: string, m: string, k: int)
    requires StartsOnce(m) && OnlyAt(doc, m, k)
    ensures SplitCount(doc, m) == 1 && IndexOf(doc, m, 0) == k
  {
    CountOneMeansOnly(doc, m);
    IndexOfIsFirst(doc, m, 0);
  }

  lemma FoundExactly(ms: Markers, doc: string)
    requires Proper(ms)
    ensures HasNoMarkers(ms, doc) <==> Free(ms, doc)
    ensures Find(ms, doc).Valid() <==> HoldsOneRegion(ms, doc)
    ensures Free(ms, doc) ==> !HoldsOneRegion(ms, doc)
  {
    CountOneMeansOnly(doc, ms.start);
    CountOneMeansOnly(doc, ms.end);
    if HoldsOneRegion(ms, doc) {
      var i, j :| i < j && OnlyAt(doc, ms.start, i) && OnlyAt(doc, ms.end, j);
      OnlyOneIsFound(doc, ms.start, i);
      OnlyOneIsFound(doc, ms.end, j);
    }
  }

  // A merge goes through exactly when neither text holds any marker, or both hold one
  // region; in the first case the incoming text is installed whole, in the second an
  // unchanged fingerprint leaves everything as it is. Anything else is refused.
  lemma MergeSucceedsExactly(ms: Markers, existing: string, incoming: string, fingerprintUnchanged: bool)
    requires Proper(ms)
    ensures var merged := Merge(ms, existing, incoming, fingerprintUnchanged);
            && (merged.Some? <==> || (Free(ms, existing) && Free(ms, incoming))
                                  || (HoldsOneRegion(ms, existing) && HoldsOneRegion(ms, incoming)))
            && (Free(ms, existing) && Free(ms, incoming) ==> merged == Some(incoming))
            && (merged.Some? && HoldsOneRegion(ms, existing) && fingerprintUnchanged ==> merged == Some(existing))
  {
    FoundExactly(ms, existing);
    FoundExactly(ms, incoming);
  }

  // A document as its text before the region, the region, and its text after it.
  ghost predicate IsSplit(ms: Markers, doc: string, before: string, region: string, after: string) {
    doc == before + region + after && Free(ms, before) && IsManaged(ms, region) && Free(ms, after)
  }

  // Between the same texts the old region stands, or the incoming one.
  ghost predicate OnlyRegionMoves(ms: Markers, existing: string, incoming: string, fingerprintUnchanged: bool,
                                  now: string) {
    exists b, r, a, x, m, y ::
      && IsSplit(ms, existing, b, r, a) && IsSplit(ms, incoming, x, m, y)
      && IsSplit(ms, now, b, if fingerprintUnchanged then r else m, a)
  }

  // Whatever is merged, in terms of the texts alone.
  lemma MergeKeepsPeoplesText(ms: Markers, existing: string, incoming: string, fingerprintUnchanged: bool)
    requires Proper(ms) && Merge(ms, existing, incoming, fingerprintUnchanged).Some?
    ensures var now := Merge(ms, existing, incoming, fingerprintUnchanged).value;
            || (Free(ms, existing) && Free(ms, incoming) && now == incoming)
            || OnlyRegionMoves(ms, existing, incoming, fingerprintUnchanged, now)
  {
    MergeSucceedsExactly(ms, existing, incoming, fingerprintUnchanged);
    FoundExactly(ms, existing);
    FoundExactly(ms, incoming);
    if HoldsOneRegion(ms, existing) {
      PartsOf(ms, existing);
      PartsOf(ms, incoming);
      MergeInstallsRegion(ms, existing, incoming);
      var b, r, a := Before(ms, existing), Managed(ms, existing), After(ms, existing);
      var now := Merge(ms, existing, incoming, fingerprintUnchanged).value;
      var m := Managed(ms, incoming);
      assert IsSplit(ms, existing, b, r, a) && IsSplit(ms, incoming, Before(ms, incoming), m, After(ms, incoming));
      assert IsSplit(ms, now, b, if fingerprintUnchanged then r else m, a);
    }
  }

  // Two well-formed inputs: everything outside the region stays, the incoming
  // region is installed exactly, and the result is well-formed again.
  lemma MergeInstallsRegion(ms: Markers, existing: string, incoming: string)
    requires Proper(ms) && Find(ms, existing).Valid() && Find(ms, incoming).Valid()
    ensures var merged := Merge(ms, existing, incoming, false);
            && merged == Some(Before(ms, existing) + Managed(ms, incoming) + After(ms, existing))
            && Find(ms, merged.value).Valid()
            && Before(ms, merged.value) == Before(ms, existing) && After(ms, merged.value) == After(ms, existing)
            && Managed(ms, merged.value) == Managed(ms, incoming)
  {
    PartsOf(ms, existing);
    PartsOf(ms, incoming);
    SplicedIsWellFormed(ms, Before(ms, existing), Managed(ms, incoming), After(ms, existing));
  }

  // The last merge decides: an earlier one leaves no trace.
  lemma LastMergeWins(ms: Markers, existing: string, first: string, second: string)
    requires Proper(ms) && Find(ms, existing).Valid() && Find(ms, first).Valid() && Find(ms, second).Valid()
    ensures Merge(ms, existing, first, false).Some?
    ensures Merge(ms, Merge(ms, existing, first, false).value, second, false) == Merge(ms, existing, second, false)
  {
    MergeInstallsRegion(ms, existing, first);
    MergeInstallsRegion(ms, existing, second);
    MergeInstallsRegion(ms, Merge(ms, existing, first, false).value, second);
  }

  // Merging what is already installed changes nothing.
  lemma MergeIsIdempotent(ms: Markers, existing: string, incoming: string)
    requires Proper(ms) && Find(ms, existing).Valid() && Find(ms, incoming).Valid()
          && Managed(ms, existing) == Managed(ms, incoming)
    ensures Merge(ms, existing, incoming, false) == Some(existing)
  {
    MergeInstallsRegion(ms, existing, incoming);
    PartsOf(ms, existing);
  }
}
