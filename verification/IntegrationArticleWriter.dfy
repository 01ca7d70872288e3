// The optimistic integration writer next to people editing the same article
// (apps/api/src/articles/articles.service.ts): any interleaving of people's
// operations with the writer's read-and-merge and guarded-commit steps.
module IntegrationArticleWriter {
  import opened Basics
  import opened VersionLog
  import opened ArticleHistory
  import ArticleTheorems
  import opened ManagedRegion

  const MAX_ATTEMPTS: nat := 3
  const MAX_MARKDOWN_SOURCE: nat := 500_000

  datatype Input = Input(title: string, slug: string, visible: bool, markdown: string, fingerprintUnchanged: bool)

  datatype Result = Blocked | Unchanged | Written | Conflict

  // Ready holds the row an attempt read and the data it derived from it.
  datatype Phase =
    | Idle
    | Reading(attempt: nat)
    | Ready(attempt: nat, seen: State, stamp: nat, data: Row)
    | Finished(result: Result)

  datatype Commit = Commit(input: Input, before: State, after: State)

  datatype World = World(
    article: State,
    stamp: nat,          // moved by every write of the article row
    input: Input,
    phase: Phase,
    tries: nat,          // attempts made by the current call
    people: State,       // the article as people last left it
    commits: seq<Commit>
  )

  datatype Action =
    | Person(op: Op, touched: bool)
    | Call(input: Input)
    | Read(folder: Option<nat>, slugOwned: bool, eligible: bool)
    | TryCommit(eligible: bool)

  // The text an attempt would install over the row it read; None if it must refuse.
  function MergedText(row: Row, input: Input): Option<string> {
    if row.body.mode != Markdown || row.body.source.None? then None
    else if row.body.source.value == "" then Some(input.markdown)
    else MarkersInUseAreProper(); Merge(MARKERS, row.body.source.value, input.markdown, input.fingerprintUnchanged)
  }

  function Attempt(w: World, folder: Option<nat>, slugOwned: bool, eligible: bool): Phase
    requires w.phase.Reading?
  {
    var seen := w.article;
    var merged := MergedText(seen.live, w.input);
    if (seen.archived || seen.live.slug != w.input.slug) && slugOwned then Finished(Blocked)
    else if merged.None? || !(1 <= |merged.value| <= MAX_MARKDOWN_SOURCE) then Finished(Blocked)
    else
      var body := Body(Markdown, None, merged);
      var data := Row(w.input.title, w.input.slug, folder, w.input.visible, body, Derived(body));
      if !IntegrationChanged(seen, data) && !seen.archived then Finished(if eligible then Unchanged else Blocked)
      else Ready(w.phase.attempt, seen, w.stamp, data)
  }

  predicate GuardHolds(w: World)
    requires w.phase.Ready?
  {
    && w.article.revision == w.phase.seen.revision && w.article.archived == w.phase.seen.archived
    && w.stamp == w.phase.stamp
  }

  function Next(w: World, a: Action): World {
    match a
    case Person(op, touched) =>
      var after := Step(w.article, op);
      w.(article := after, people := after, stamp := w.stamp + (if touched || after != w.article then 1 else 0))
    case Call(input) =>
      if w.phase.Idle? || w.phase.Finished? then w.(input := input, phase := Reading(0), tries := 0) else w
    case Read(folder, slugOwned, eligible) =>
      if w.phase.Reading? then w.(phase := Attempt(w, folder, slugOwned, eligible), tries := w.tries + 1) else w
    case TryCommit(eligible) =>
      if !w.phase.Ready? then w
      else if !eligible then w.(phase := Finished(Blocked))
      else if GuardHolds(w) then
        var after := IntegrationWrite(w.article, w.phase.data);
        w.(article := after, stamp := w.stamp + 1, phase := Finished(Written),
           commits := w.commits + [Commit(w.input, w.article, after)])
      else w.(phase := if w.phase.attempt + 1 < MAX_ATTEMPTS then Reading(w.phase.attempt + 1) else Finished(Conflict))
  }

  function Start(article: State, input: Input): World {
    World(article, 0, input, Idle, 0, article, [])
  }

  function Run(w: World, actions: seq<Action>): World {
    if actions == [] then w else Next(Run(w, actions[..|actions| - 1]), actions[|actions| - 1])
  }

  // --------------------------------------------------------------------
  // Safety
  // --------------------------------------------------------------------

  predicate IsManagedText(row: Row) {
    row.body.mode == Markdown && row.body.source.Some? && Find(MARKERS, row.body.source.value).Valid()
  }

  // Whatever people left outside the managed region is still there.
  ghost predicate OutsideKept(people: Row, now: Row) {
    MarkersInUseAreProper();
    IsManagedText(people) ==>
      && IsManagedText(now)
      && Before(MARKERS, now.body.source.value) == Before(MARKERS, people.body.source.value)
      && After(MARKERS, now.body.source.value) == After(MARKERS, people.body.source.value)
  }

  // A commit merged against the row exactly as it stood just before it.
  ghost predicate MergedAgainst(c: Commit) {
    && MergedText(c.before.live, c.input).Some?
    && c.after.live.body == Body(Markdown, None, MergedText(c.before.live, c.input))
    && c.after.live.title == c.input.title && c.after.live.slug == c.input.slug
    && c.after.live.visible == c.input.visible && c.after.live.excerpt == Derived(c.after.live.body)
    && 1 <= |c.after.live.body.source.value| <= 500_000
    && !c.after.archived && c.after.revision == c.before.revision + 1
  }

  // Over a body that was not empty a commit moves the managed region and nothing
  // else, unless neither text held a marker.
  ghost predicate TextRespected(c: Commit) {
    var was, now := c.before.live.body, c.after.live.body;
    && was.mode == Markdown && was.source.Some? && now.mode == Markdown && now.source.Some?
    && (was.source.value == "" ==> now.source.value == c.input.markdown)
    && (was.source.value != "" ==>
          || (Free(MARKERS, was.source.value) && Free(MARKERS, c.input.markdown)
              && now.source.value == c.input.markdown)
          || OnlyRegionMoves(MARKERS, was.source.value, c.input.markdown, c.input.fingerprintUnchanged,
                             now.source.value))
  }

  lemma MergedTextIsRespected(c: Commit)
    requires MergedAgainst(c)
    ensures TextRespected(c)
  {
    MarkersInUseAreProper();
    if c.before.live.body.source.value != "" {
      MergeKeepsPeoplesText(MARKERS, c.before.live.body.source.value, c.input.markdown, c.input.fingerprintUnchanged);
    }
  }

  ghost predicate Safe(w: World) {
    && OutsideKept(w.people.live, w.article.live)
    && (forall k | 0 <= k < |w.commits| :: MergedAgainst(w.commits[k]))
    && (match w.phase
        case Idle => true
        case Reading(n) => n < MAX_ATTEMPTS && w.tries == n
        case Ready(n, seen, stamp, data) =>
          && n < MAX_ATTEMPTS && w.tries == n + 1
          && stamp <= w.stamp && (stamp == w.stamp ==> w.article == seen)
          && MergedText(seen.live, w.input).Some? && data.body == Body(Markdown, None, MergedText(seen.live, w.input))
          && 1 <= |data.body.source.value| <= MAX_MARKDOWN_SOURCE && data.excerpt == Derived(data.body)
          && data.title == w.input.title && data.slug == w.input.slug && data.visible == w.input.visible
          && (IntegrationChanged(seen, data) || seen.archived)
        case Finished(r) => w.tries <= MAX_ATTEMPTS && (r == Conflict ==> w.tries == MAX_ATTEMPTS))
  }

  lemma MergeKeepsOutside(people: Row, now: Row, input: Input, next: Row)
    requires OutsideKept(people, now) && MergedText(now, input).Some?
    requires next.body == Body(Markdown, None, MergedText(now, input))
    ensures OutsideKept(people, next)
  {
    MarkersInUseAreProper();
    if IsManagedText(people) && !input.fingerprintUnchanged {
      assert now.body.source.value != "";
      assert Find(MARKERS, input.markdown).Valid();
      MergeInstallsRegion(MARKERS, now.body.source.value, input.markdown);
    }
  }

  lemma CommitIsSafe(w: World, eligible: bool)
    requires Safe(w) && w.phase.Ready?
    ensures Safe(Next(w, TryCommit(eligible)))
  {
    if eligible && GuardHolds(w) {
      MergeKeepsOutside(w.people.live, w.article.live, w.input, w.phase.data);
    }
  }

  lemma NextIsSafe(w: World, a: Action)
    requires Safe(w)
    ensures Safe(Next(w, a))
  {
    match a
    case Person(op, touched) =>
    case Call(input) =>
    case Read(folder, slugOwned, eligible) =>
    case TryCommit(eligible) => if w.phase.Ready? { CommitIsSafe(w, eligible); }
  }

  // In every interleaving: a committing write merged against the row as it stood
  // just before the commit, and moved nothing but the managed region of a text that
  // held a marker; the text people last left outside the region is in the article;
  // and a call makes at most three attempts, all of them before it reports a conflict.
  lemma {:induction false} NoLostUpdate(article: State, input: Input, actions: seq<Action>)
    ensures var w := Run(Start(article, input), actions);
            && Safe(w)
            && OutsideKept(w.people.live, w.article.live)
            && (forall k | 0 <= k < |w.commits| :: MergedAgainst(w.commits[k]) && TextRespected(w.commits[k]))
            && w.tries <= 3
            && (w.phase == Finished(Conflict) ==> w.tries == 3)
  {
    var w := Run(Start(article, input), actions);
    if actions != [] {
      var before := actions[..|actions| - 1];
      NoLostUpdate(article, input, before);
      NextIsSafe(Run(Start(article, input), before), actions[|actions| - 1]);
    }
    forall k | 0 <= k < |w.commits| ensures TextRespected(w.commits[k]) { MergedTextIsRespected(w.commits[k]); }
  }

  // The writer cannot be kept busy: each of its own steps brings it nearer to
  // the end, and nobody else's step moves it away from it.
  function Remaining(w: World): nat {
    match w.phase
    case Reading(n) => if n < MAX_ATTEMPTS then 2 * (MAX_ATTEMPTS - n) else 0
    case Ready(n, _, _, _) => if n < MAX_ATTEMPTS then 2 * (MAX_ATTEMPTS - n) - 1 else 0
    case _ => 0
  }

  lemma EveryOwnStepCounts(w: World, a: Action)
    requires Safe(w) && Remaining(w) > 0
    ensures a.Person? || a.Call? ==> Remaining(Next(w, a)) == Remaining(w)
    ensures (a.Read? && w.phase.Reading?) || (a.TryCommit? && w.phase.Ready?) ==> Remaining(Next(w, a)) < Remaining(w)
  {
  }

  // What an attempt decides on the row it reads: "unchanged" only when the row already
  // says everything it would write, and nothing to commit when another article owns
  // the slug it needs or the merged text does not fit.
  lemma AttemptDecides(w: World, folder: Option<nat>, slugOwned: bool, eligible: bool)
    requires w.phase.Reading?
    ensures var row, phase := w.article.live, Attempt(w, folder, slugOwned, eligible);
            && (phase.Ready? || phase == Finished(Blocked) || phase == Finished(Unchanged))
            && (phase == Finished(Unchanged) ==>
                  && eligible && !w.article.archived
                  && row.title == w.input.title && row.slug == w.input.slug && row.folder == folder
                  && row.visible == w.input.visible && row.body.mode == Markdown
                  && row.body.source == MergedText(row, w.input))
            && (phase.Ready? ==>
                  && phase.seen == w.article && phase.stamp == w.stamp
                  && (slugOwned ==> !w.article.archived && row.slug == w.input.slug)
                  && 1 <= |phase.data.body.source.value| <= 500_000 && phase.data.folder == folder)
  {
    var merged := MergedText(w.article.live, w.input);
    if merged.Some? {
      var body := Body(Markdown, None, merged);
      var data := Row(w.input.title, w.input.slug, folder, w.input.visible, body, Derived(body));
      ArticleTheorems.DiffNamesExactly(w.article.live, data);
      assert forall f | f in Diff(w.article.live, data) && f != Content :: f in Diff(w.article.live, data) - {Content};
    }
  }

  // An attempt is lost exactly when someone wrote the row after it was read.
  lemma CommitsExactlyWithoutInterference(w: World)
    requires Safe(w) && w.phase.Ready?
    ensures Next(w, TryCommit(true)).phase == Finished(Written) <==> w.stamp == w.phase.stamp
  {
  }

  // Text outside the region is only promised for a well-formed document: with no
  // marker on either side the whole body is replaced.
  lemma UnmarkedTextIsReplaced(row: Row, input: Input)
    requires row.body == Body(Markdown, None, Some("people wrote this"))
    requires HasNoMarkers(MARKERS, input.markdown)
    ensures MergedText(row, input) == Some(input.markdown)
  {
    var text := row.body.source.value;
    assert |text| < |MARKERS.start| && |text| < |MARKERS.end|;
    assert HasNoMarkers(MARKERS, text);
  }
}
