# Weavestream: verified model of the hard logic

Weavestream keeps IT documentation: assets that several integrations and people
fill in, articles with a version history, rule lists, AI chat. This project models
the parts of it that carry intricate logic and proves what they promise. Each module
follows one source file or one component of it.

* **Field ownership on assets** (`FieldPolicy`, `AssetWriter`): which integration may
  write which field, over whole runs of syncs in any order.
* **Article history** (`VersionLog`, `ArticleHistory`, `ArticleService`,
  `ArticleTheorems`, `ArticleGuard`): the live row, the published versions, the rolling
  draft, what every run of operations keeps and undoes, and the guard of edits drafted
  against an earlier revision.
* **Integration writes of articles** (`ManagedRegion`, `IntegrationArticleWriter`):
  the managed Markdown region and the optimistic writer among people's edits.
* **Line diff and fuzzy match** (`LineDiff`, `EditDistance`): dynamic programming
  against the set of all op lists and all edit scripts.
* **Streams and text** (`Sse`, `SseReference`, `SseEnding`, `ThinkTags`, `VisibleText`,
  `ArticlePatch`, `AnthropicMessages`, `AnthropicStream`, `AnthropicTheorems`,
  `AnthropicReply`): the event stream parser against the standard, think-tag removal
  against its regular expression, exact-once edits, the Messages API mapping, and what a
  streamed reply holds in the end.
* **Path selectors** (`Numerals`, `PathGrammar`, `PathTheorems`, `PathErrors`, `PathScalars`):
  parser, printer, resolver and lister against one grammar, and the error of every text
  outside it.
* **Addresses** (`Bits`, `Ipv6Text`, `Ipv6`, `IpMatch`, `IpTheorems`, `IpSpelling`,
  `IpCatchAll`, `IpRuleSchema`): IPv6 text and numbers, CIDR rules, catch-alls, and what
  the rule schema lets in.
* **Small protocols** (`ToolBudget`, `LayoutFields`, `LayoutTheorems`,
  `LayoutAddField`): the two-counter budget and the saving and adding of layout fields.

Loops and objects of the source are methods and classes here, each with a contract
that ties its result to a specification function; the theorems are about those
functions, over every input, run or interleaving. Text is a sequence of characters.

Where code and documentation disagree the model follows the code. The cases found, each
with the exact condition under which the documented behaviour holds or a concrete
counterexample:

* `docs/integrations/index.md` line 41 promises that the highest integration that has a
  value fills a field. A provider whose source has since gone empty still blocks lower
  ones (`RetractedValueSticks`), and an integration's own blank locks it out
  (`OwnBlankLocksOut`); `SourceIsWrittenExactly` says when a value gets in.
* `assets.service.ts` lines 156-160 and `docs/integrations/level.md` line 68 promise that
  "Keep ours" keeps the value until the source changes. `KeepOursHoldsExactly` says when
  it does; `KeepOursFailsForSourceWins` is a mapping that overwrites it.
* The comment on `restoreVersion` promises a new version for every restore; restoring
  what is already live adds none, and a refused restore still loses the draft
  (`RestoreVersionGivesTheTarget`).
* `discardDraft` can undo a move (`DiscardLosesAMove`), and an integration write next to
  an open draft ends the numbering promise (`IntegrationKeepsValidExactlyWithoutDraft`).
* The guard of `articles.service.ts` lines 508-518 is for edits drafted against a known
  state of the article; a dropped draft changes the text but not the revision, and an edit
  drafted against it is applied (`GuardMissesADiscard`). `GuardedEditIsAcceptedExactly`
  says what the guard does see.
* The event stream parser emits an event the stream ends inside of, and trims one that
  a lone CR ends (`UnfinishedEventIsEmitted`, `FinalCrTrimsTheEvent`); `AgreesExactly` is
  the condition on the text under which it does what the standard says.
* `visibleText` cuts the original text at an index of its lower-cased copy, so an
  unclosed tag can show (`TagLeaks`); the method's own contract says exactly when.
* A path with an index of a million or more is listed and printed but does not parse
  (`LargeIndexDoesNotParse`, `ListedPathsParseBackExactly`).
* A save cannot swap the slugs of two fields, because the index is checked after every
  statement (`SlugsHoldAfterEveryStatementExactly`). It compares with a read made before
  its transaction, and no version guards it, so a field added in between can share a
  position with a saved one (`StaleSaveSharesAPosition`, `RunStaysTidyExactly`).
* `ip-match.ts` lines 98-101 promise that a rule that validates is one that can match,
  which holds for IPv6. A bare IPv4 rule is compared as text: one with a leading zero
  validates and misses the client at its address (`LeadingZeroRuleMisses`;
  `Ipv4RuleMatchesItsAddressExactly` is the condition).

Two lemmas are about functions on inputs that other checks keep from them. The empty old
text is ambiguous in every document (`EmptyOldTextIsAlwaysAmbiguous`), and both
`packages/shared/src/schemas/ai-tools.ts` lines 66-69 and `article-proposal.ts` line 138
refuse it. An IPv4 text with a colon behind its prefix matches every IPv4 client without
being a catch-all (`ColonRuleIsMissed`), and the rule schema refuses it
(`ColonRuleIsRefused`); on the rules that can be stored the exception is gone
(`StoredCatchAllExactly`, `GapIsReportedExactly`).

## Model

| member | source | states |
|---|---|---|
| `AssetWriter.Asset.Classify` | apps/api/src/assets/assets.service.ts:1319-1386 | For one mapped field of a row with any number of other bindings, the branches of the loop body reach exactly the decision of the write policy. |
| `AssetWriter.Asset.Plan` | apps/api/src/assets/assets.service.ts:1315-1389 | The field loop leaves, for every mapped field, a value to write, a checksum and a difference that together are the policy's outcome for that field, and nothing for any other field. |
| `AssetWriter.Asset.Store` | apps/api/src/assets/assets.service.ts:1389-1396 | Stored values and the sync record after the write; a change is reported, and the row stamped, exactly when some stored value differs afterwards; baselines of unmapped fields of the layout are carried over. |
| `AssetWriter.Asset.WriteFields` | apps/api/src/assets/assets.service.ts:1238-1396 | One write moves every field by the policy independently of all others: stored value and all baselines per field; a difference is reported if and only if a writing mapping leaves a value that is not the source, other than for an empty source that meets another provider; and the row is touched only when a value changes. |
| `AssetWriter.UnmappedFieldKeepsItsRecord` | apps/api/src/assets/assets.service.ts:1389-1396 | A field the write leaves out keeps its value and all baselines, the writer's own while the layout has the field. |
| `AssetWriter.Asset.SyncFields` | apps/api/src/assets/assets.service.ts:1160-1236 | A write that maps a field twice or names an unknown one is blocked and changes nothing; any other has exactly the per-field effect. |
| `FieldPolicy.SyncTouchesOwnBaseline` | apps/api/src/assets/assets.service.ts:1389-1396 | A sync never rewrites another integration's baseline. |
| `FieldPolicy.RunHoldsLastTop` | apps/api/src/assets/assets.service.ts:1315-1389 | Whatever direction each integration's mapping has, manual_only included, from any state without retractions or person edits, after any sequence of syncs in any order with any repeats, the field holds the source of the last top-ranked provider that has synced. |
| `FieldPolicy.Converges` | apps/api/src/assets/assets.service.ts:1340-1386 | Order independence: when the top-ranked providers agree, every run in which one of them syncs ends with their value, and so does every longer run. |
| `FieldPolicy.DistinctRanksHaveOneTop` | apps/api/src/assets/assets.service.ts:197-205 | With distinct ranks there is one top provider, so the agreement Converges asks for is automatic. |
| `FieldPolicy.OrderMattersExactlyOnDisagreement` | apps/api/src/assets/assets.service.ts:2591-2615 | The final value is independent of the sync order if and only if all top-ranked providers send the same value (drivers outside the priority list share a rank). |
| `FieldPolicy.SourceIsWrittenExactly` | apps/api/src/assets/assets.service.ts:1340-1371 | When integrations alone wrote the field, a source value it does not hold, empty or not, gets in if and only if it does not meet another provider while empty, and the field is empty, or no higher integration is on record as a provider and the field is not a blank only the writer itself is on record for. |
| `FieldPolicy.LoneProviderIsFollowed` | apps/api/src/assets/assets.service.ts:1343-1374 | The value of the only provider follows its source, an empty one included, whoever else is bound without a value. |
| `FieldPolicy.BaselineFollowsTheWrite` | apps/api/src/assets/assets.service.ts:1330-1386 | A sync stores the old value or the source; what it writes becomes its baseline, and what it keeps leaves the baseline as it was unless it equals the source. |
| `FieldPolicy.ManualOnlyLeavesTheRecord` | apps/api/src/assets/assets.service.ts:1319 | A manual_only mapping writes nothing and takes the integration off the record; everybody else's baseline stays. |
| `FieldPolicy.KeptCountsOnlyAgainstItsSource` | apps/api/src/assets/assets.service.ts:1364-1371 | A value kept against another source value, or under a source_wins mapping, changes nothing about the sync. |
| `FieldPolicy.RetractedValueSticks` | apps/api/src/assets/assets.service.ts:1347-1355 | Counterexample to 'the highest integration that has a value fills it': once the top source has gone empty, its old value stays through every run. |
| `FieldPolicy.OwnBlankLocksOut` | apps/api/src/assets/assets.service.ts:1356-1371 | Counterexample: an integration that once wrote an empty list can never write a value again while a second integration is bound. |
| `FieldPolicy.SyncKeepsPersonsValue` | apps/api/src/assets/assets.service.ts:1330-1386 | Unless it is bound for the first time and alone, an integration never replaces a preserve_manual value no binding is on record for, and changes its baseline only when it is sent that very value. |
| `FieldPolicy.PersonsValueSurvives` | apps/api/src/assets/assets.service.ts:1303-1389 | Such a value, and every baseline, survives every run of syncs by bound integrations whose sources may change from step to step but never equal it. |
| `FieldPolicy.AdoptsExactlyOnEqualSource` | apps/api/src/assets/assets.service.ts:1333-1339 | A non-empty person's value becomes an integration's baseline if and only if that integration sends it, and nobody else's baseline moves. |
| `FieldPolicy.AdoptedValueIsReplaced` | apps/api/src/assets/assets.service.ts:1376-1388 | After the adoption the field follows the source again: the next different value replaces it. |
| `FieldPolicy.RevertingResumesSync` | apps/api/src/assets/assets.service.ts:1324-1329 | Putting back a value some integration last wrote ends the person's claim: convergence applies again. |
| `FieldPolicy.KeepOursHoldsExactly` | apps/api/src/assets/assets.service.ts:1349-1371 | For either writing direction, the stored value survives the very source a 'Keep ours' was made against if and only if it is not empty and a higher integration is on record as a provider, or it is not empty, the direction is preserve_manual and it is not merely the lone integration's own baseline, or an empty source meets another provider. |
| `FieldPolicy.KeepOursFailsForSourceWins` | apps/api/src/assets/assets.service.ts:1349-1374 | Counterexample: a source_wins mapping of a higher integration overwrites the value kept against the very source it was kept against. |
| `ArticleService.Article.Update` | apps/api/src/articles/articles.service.ts:501-763 | A refused update changes nothing; otherwise the row, the revision, the write stamp and the version rows move together as the state machine says. |
| `ArticleService.Article.RowData` | apps/api/src/articles/articles.service.ts:560-602 | The columns written are the existing row with exactly the given fields replaced, the excerpt following the body unless given. |
| `ArticleService.Article.WriteVersion` | apps/api/src/articles/articles.service.ts:661-762 | Nothing for a save without changes and without a draft to promote; otherwise the rolling draft is rewritten, promoted or started, with the union of changed fields. |
| `ArticleService.Article.Move` | apps/api/src/articles/articles.service.ts:1250-1287 | Only the folder and the write stamp move; no version row is made. |
| `ArticleService.Article.Archive` | apps/api/src/articles/articles.service.ts:1289-1352 | A draft is dropped and the latest published row put back before the article is archived. |
| `ArticleService.Article.Restore` | apps/api/src/articles/articles.service.ts:1382-1398 | Only the archive mark goes, and only when the slug is free. |
| `ArticleService.Article.DiscardDraft` | apps/api/src/articles/articles.service.ts:1546-1614 | The latest published row comes back and the draft goes; without a draft nothing changes, and with nothing published the call is refused. |
| `ArticleService.Article.RestoreVersion` | apps/api/src/articles/articles.service.ts:1749-1803 | The two transactions in turn: a draft discarded first stays discarded even when the save that follows is refused. |
| `ArticleService.Article.constructor` | apps/api/src/articles/articles.service.ts:396-475 | Creation publishes version 1 with every versioned field. |
| `ArticleGuard.UpdateIsAcceptedExactly` | apps/api/src/articles/articles.service.ts:519-656 | An update is accepted if and only if the article is live, its folder exists, a new slug is free, each body given is of the article's mode or of the mode asked for and valid, no other mode is asked for without a body, and a given revision is the current one; it is stale if and only if only the last fails. |
| `ArticleGuard.UpdateWritesWhatIsGiven` | apps/api/src/articles/articles.service.ts:563-589 | Every field the input gives is written and every other one keeps its value; the excerpt follows a new body unless it is given. |
| `ArticleGuard.EventMovesRevisionExactly` | apps/api/src/articles/articles.service.ts:591-604 | A write moves the revision by one if and only if it takes effect as an edit of the content: an update that gives title, body, excerpt or mode, a version restore, or an integration write. |
| `ArticleGuard.TextMovesWithTheRevision` | apps/api/src/articles/articles.service.ts:591-604 | The text of the article changes only by such an edit or by a dropped draft. |
| `ArticleGuard.RevisionCountsEdits` | apps/api/src/articles/articles.service.ts:591-604 | Over every run the revision counts the edits that took effect. |
| `ArticleGuard.GuardedEditIsAcceptedExactly` | apps/api/src/articles/articles.service.ts:508-518 | After any run of people's and integrations' writes, an edit drafted against the article as it was before is accepted if and only if none of them edited the content and nothing else stands in its way. |
| `ArticleGuard.OneOfTwoGuardedEdits` | apps/api/src/articles/articles.service.ts:640-655 | In every run at most one of two edits drafted against the same revision takes effect. |
| `ArticleGuard.GuardMissesADiscard` | apps/api/src/articles/articles.service.ts:1592-1595 | Counterexample to the guard as a guard of the text: a dropped draft leaves the revision, so an edit drafted against the draft is applied to the published text. |
| `ArticleTheorems.StepKeepsValid` | apps/api/src/articles/articles.service.ts:639-763 | Every operation keeps: numbers 1..n, only number n a draft, archived without draft, live text equal to the newest row, every row naming what it changed. |
| `ArticleTheorems.DiffNamesExactly` | apps/api/src/articles/articles.service.ts:1987-2000 | A field is among the changed ones if and only if it differs, for each of the seven. |
| `ArticleTheorems.NothingIsNamedExactly` | apps/api/src/articles/articles.service.ts:1987-2000 | Nothing is named if and only if the rows are the same but for the excerpt. |
| `ArticleTheorems.NewestNamesWhatChanged` | apps/api/src/articles/articles.service.ts:661-762 | The row a save or autosave leaves on top names exactly what it changed, together with what the draft under it named; without a change and a draft to promote there is no new row. |
| `ArticleTheorems.EveryRunIsValid` | apps/api/src/articles/articles.service.ts:460-763 | Over every run of people's operations from creation: those invariants, a published row always exists, and without a draft the live text equals the latest published version. |
| `ArticleTheorems.StepAppendsOnly` | apps/api/src/articles/articles.service.ts:682-762 | No operation rewrites or drops a published version, and each adds at most one. |
| `ArticleTheorems.RunAppendsOnly` | apps/api/src/articles/articles.service.ts:682-762 | Over every run the published list only grows at its end. |
| `ArticleTheorems.AutosavesOnlyDraft` | apps/api/src/articles/articles.service.ts:676-762 | Any number of autosaves grow one draft on top of an untouched history. |
| `ArticleTheorems.AutosavesAreUndoable` | apps/api/src/articles/articles.service.ts:1562-1614 | Any autosaves followed by discard, or by archive and restore, give back the same versions and live text; the folder comes back if and only if no draft was made after an unrecorded move. |
| `ArticleTheorems.DiscardLosesAMove` | apps/api/src/articles/articles.service.ts:1250-1287 | Counterexample for the folder: a move, one autosave and a discard undo the move. |
| `ArticleTheorems.RestoreVersionGivesTheTarget` | apps/api/src/articles/articles.service.ts:1749-1803 | It succeeds if and only if the target's folder exists and its slug is free; then the live row is the target on top of all earlier published versions, with a new version if and only if something differs; on refusal the draft is gone. |
| `ArticleTheorems.EventKeepsSound` | apps/api/src/articles/articles.service.ts:1195-1225 | With integration writes mixed in, each event still keeps numbers distinct, at most one draft, something published, and all published rows. |
| `ArticleTheorems.IntegrationWriteAddsAVersionExactly` | apps/api/src/articles/articles.service.ts:1011-1222 | An integration write publishes exactly one version, at the next number and naming what it changed, if and only if title, slug, folder, visibility, mode or source differ; any other adds none and only brings an archived article back. |
| `ArticleTheorems.ArchivedHasNoDraft` | apps/api/src/articles/articles.service.ts:1289-1352 | Archiving leaves no draft behind, with or without a published version. |
| `ArticleTheorems.MixedRunsKeepHistory` | apps/api/src/articles/articles.service.ts:1195-1225 | In every mix of people's and integrations' writes no published version is changed or removed. |
| `ArticleTheorems.IntegrationKeepsValidExactlyWithoutDraft` | apps/api/src/articles/articles.service.ts:1204-1225 | A changing integration write keeps the people's invariant if and only if no draft is open. |
| `ArticleTheorems.SavingPastAnIntegrationWrite` | apps/api/src/articles/articles.service.ts:688-712 | Counterexample family: saving a draft that an integration has published past leaves the integration's version as the latest published one. |
| `ManagedRegion.MarkersInUseAreProper` | apps/api/src/articles/articles.service.ts:2332-2333 | The two markers open and close with characters they hold nowhere else, which is all the merge relies on. |
| `ManagedRegion.NoMarkerAcrossSplice` | apps/api/src/articles/articles.service.ts:2354-2358 | No marker can come to lie across a splice. |
| `ManagedRegion.PartsOf` | apps/api/src/articles/articles.service.ts:2340-2347 | A well-formed document is its text before, its managed region and its text after, each marker in the region alone. |
| `ManagedRegion.SplicedIsWellFormed` | apps/api/src/articles/articles.service.ts:2350-2358 | Any managed region put between marker-free texts is found again in place. |
| `ManagedRegion.MergeSucceedsExactly` | apps/api/src/articles/articles.service.ts:2340-2351 | For all texts: a merge goes through if and only if neither text holds a marker anywhere, or both hold exactly one of each, the end behind the start; then the incoming text is taken whole, or an unchanged fingerprint leaves the text as it is. |
| `ManagedRegion.MergeKeepsPeoplesText` | apps/api/src/articles/articles.service.ts:2349-2359 | Whatever is merged, in terms of the texts alone: between the same outer texts the old region or the incoming one, unless neither text held a marker. |
| `ManagedRegion.MergeInstallsRegion` | apps/api/src/articles/articles.service.ts:2335-2359 | On two well-formed inputs everything outside the region stays, the incoming region is installed exactly, and the result is well-formed. |
| `ManagedRegion.LastMergeWins` | apps/api/src/articles/articles.service.ts:2335-2359 | Merging one input and then another equals merging the second alone. |
| `ManagedRegion.MergeIsIdempotent` | apps/api/src/articles/articles.service.ts:2335-2359 | Merging the region a document already has changes nothing. |
| `IntegrationArticleWriter.NoLostUpdate` | apps/api/src/articles/articles.service.ts:885-1200 | In every interleaving with people's writes: each commit merged against the row exactly as it stood, and over a body that was not empty moved nothing but the managed region unless neither text held a marker; what people last left outside the region is in the article; at most three attempts, and a conflict only after three. |
| `IntegrationArticleWriter.EveryOwnStepCounts` | apps/api/src/articles/articles.service.ts:885-895 | The writer stops: each of its own steps strictly lowers a measure nobody else's step can raise. |
| `IntegrationArticleWriter.AttemptDecides` | apps/api/src/articles/articles.service.ts:921-1050 | An attempt ends unchanged only when the row already says everything it would write, and goes on to commit only with a text of 1 to 500000 characters and a slug no other article owns. |
| `IntegrationArticleWriter.CommitsExactlyWithoutInterference` | apps/api/src/articles/articles.service.ts:1156-1192 | An eligible attempt commits if and only if the row has not been written since it was read. |
| `IntegrationArticleWriter.MergeKeepsOutside` | apps/api/src/articles/articles.service.ts:973-979 | A merged text keeps what people left outside the region. |
| `IntegrationArticleWriter.UnmarkedTextIsReplaced` | apps/api/src/articles/articles.service.ts:2349 | Without markers on either side the promise does not hold: the whole body is replaced. |
| `LineDiff.FillTable` | packages/shared/src/article-proposal.ts:46-52 | Every cell of the table is the length of a longest common subsequence of the two remaining texts. |
| `LineDiff.WalkTable` | packages/shared/src/article-proposal.ts:53-69 | The greedy walk over the table yields the walk of the specification. |
| `LineDiff.ComputeLineDiff` | packages/shared/src/article-proposal.ts:40-70 | Null exactly above the cell cap; otherwise the ops spell both sides, no op list between them has fewer changes, no common subsequence is longer than what is kept, and in a changed block deletions come first. |
| `LineDiff.LcsIsUpperBound` | packages/shared/src/article-proposal.ts:46-52 | No common subsequence of any kind is longer than the table says. |
| `LineDiff.KeptIsCommon` | packages/shared/src/article-proposal.ts:20-23 | What any op list keeps is a common subsequence of its two sides, and sizes add up. |
| `LineDiff.WalkSpells` | packages/shared/src/article-proposal.ts:53-69 | The walk's same and deleted lines spell the old text, its same and added lines the new one. |
| `LineDiff.WalkIsMinimal` | packages/shared/src/article-proposal.ts:53-69 | Among all op lists between the two texts the walk has the fewest changes. |
| `LineDiff.WalkListsDelsFirst` | packages/shared/src/article-proposal.ts:60-69 | Inside a changed block every deletion is listed before the first addition. |
| `EditDistance.NextRow` | apps/api/src/ai-help/app-help.service.ts:427-440 | One row of the table from the row before it, with its minimum. |
| `EditDistance.EditDistanceWithin` | apps/api/src/ai-help/app-help.service.ts:424-442 | True if and only if some edit script of at most the limit turns one text into the other. |
| `EditDistance.WithinEditsIsDistance` | apps/api/src/ai-help/app-help.service.ts:424-442 | The table entry is the minimum cost over all edit scripts. |
| `EditDistance.RowMinimaGrow` | apps/api/src/ai-help/app-help.service.ts:439 | Row minima never decrease. |
| `EditDistance.LeavingEarlyIsSound` | apps/api/src/ai-help/app-help.service.ts:439 | Once a whole row exceeds the limit so does the final entry, so leaving early loses nothing. |
| `EditDistance.LengthsDifferByAtMostDistance` | apps/api/src/ai-help/app-help.service.ts:418 | The length prefilter drops no match. |
| `EditDistance.FuzzyStrongMatch` | apps/api/src/ai-help/app-help.service.ts:414-422 | True if and only if some candidate is within two edits of a token of at least eight characters, or within one of a token of four to seven. |
| `Sse.ParseEventBlock` | apps/api/src/ai/sse.ts:54-69 | The loop over a block's lines gives the block's event. |
| `Sse.TakeBlocks` | apps/api/src/ai/sse.ts:41-47 | The inner loop emits the event of every block a blank line has ended and leaves the rest. |
| `Sse.TakeChunk` | apps/api/src/ai/sse.ts:36-47 | After a chunk the buffer and the events are those of the whole text so far, wherever the cut fell. |
| `Sse.ParseSse` | apps/api/src/ai/sse.ts:17-52 | The events are a function of the concatenated text alone: every way of cutting it into chunks, inside CRLF too, gives the same ones. |
| `Sse.PendingResumes` | apps/api/src/ai/sse.ts:32-40 | Holding back a final CR makes normalising in pieces the same as normalising at once. |
| `Sse.DrainResumes` | apps/api/src/ai/sse.ts:41-47 | Blocks taken early stay the same whatever follows. |
| `SseReference.NormalizeKeepsMeaning` | apps/api/src/ai/sse.ts:32-40 | Rewriting CRLF and CR as LF does not change what a line-at-a-time reader of section 9.2.6 of the WHATWG HTML Standard dispatches. |
| `SseReference.LineIsReadExactly` | apps/api/src/ai/sse.ts:60-62 | For every line, name and value: the line is written as the name alone, or as name, colon, at most one space that does not count, and value, if and only if the standard's own reading gives that name and value; the parser's reading is the same. |
| `SseReference.FinalCrIsDropped` | apps/api/src/ai/sse.ts:57-58 | A carriage return that ends a line of a block is no part of it. |
| `SseEnding.ParserIsReferencePlusTail` | apps/api/src/ai/sse.ts:17-52 | However a text ends, the parser gives the reference's events of the text short of a final CR, then whatever the trimmed rest that no blank line has ended makes. |
| `SseEnding.TerminatedStreamsAgree` | apps/api/src/ai/sse.ts:17-52 | On every stream that ends with a blank line the two agree; where that line is a lone CR, when the block before it has no white space at its ends. |
| `SseEnding.AgreesExactly` | apps/api/src/ai/sse.ts:24-39 | For every text: where a final CR ends the last block the two agree if and only if trimming that block is harmless, otherwise if and only if no line of the trimmed rest has the field name data. |
| `SseEnding.TrimIsHarmlessExactly` | apps/api/src/ai/sse.ts:25-28 | Trimming a block leaves its event alone if and only if it has no data line, or the white space in front of its first line and behind its last one touches no data line and leaves the event its name. |
| `SseEnding.UnfinishedEventIsEmitted` | apps/api/src/ai/sse.ts:24-31 | Counterexample family: an event the stream ends inside of is emitted, where the standard drops it. |
| `SseEnding.FinalCrTrimsTheEvent` | apps/api/src/ai/sse.ts:25 | Counterexample family: a stream ended by a lone CR loses a trailing space of its last line. |
| `ThinkTags.RemoveClosedBlocks` | apps/api/src/ai/ai-completion.service.ts:61-74 | The one-pass loop equals leftmost, non-overlapping, shortest-match removal on every text, nested opens and stray closes included. |
| `ThinkTags.StripThinkTags` | apps/api/src/ai/ai-completion.service.ts:61-75 | The whole function equals the regular expression's result, trimmed. |
| `ThinkTags.TagsAreMatchedInAnyCase` | apps/api/src/ai/ai-completion.service.ts:65 | What is matched as a tag, character by character, the letters in either case. |
| `ThinkTags.UnclosedTextStays` | apps/api/src/ai/ai-completion.service.ts:55-60 | Without a closing tag after an opening one nothing is removed. |
| `ThinkTags.StrippedLacks` | apps/api/src/ai/ai-completion.service.ts:61-75 | Stripping adds no character: one that is not in the reply is not in what is left. |
| `VisibleText.VisibleText` | apps/api/src/ai/ai-completion.service.ts:82-86 | What is shown is the stripped text up to its first opening tag plus one character for every dotted capital I before that tag, trimmed; it shows an opening tag if and only if there are at least seven of them, and never when the content has none. |
| `VisibleText.IndexIsShifted` | apps/api/src/ai/ai-completion.service.ts:84-85 | The index found in the copy is the tag's position plus the number of dotted capital Is before it. |
| `VisibleText.OpenTagIsSeenInAnyCase` | apps/api/src/ai/ai-completion.service.ts:84 | What counts as an opening tag after lower-casing: the letters in either case, and the Kelvin sign for the k. |
| `VisibleText.TagShowsExactlyAfterDottedIs` | apps/api/src/ai/ai-completion.service.ts:82-86 | The visible text shows an opening tag if and only if at least seven dotted capital Is come before the first one. |
| `VisibleText.TagIsHiddenWithoutDottedIs` | apps/api/src/ai/ai-completion.service.ts:82-86 | For a content without that letter, stripped and cut as the function does, no opening tag shows. |
| `VisibleText.TagLeaks` | apps/api/src/ai/ai-completion.service.ts:82-86 | Counterexample at the function's own input: seven dotted capital Is and an unclosed tag, which stripping leaves alone, let the whole tag through. |
| `PathGrammar.ScanQuoted` | packages/shared/src/custom-api-path.ts:62-86 | The loop over a quoted key reads it, escapes undone, or names the same error. |
| `PathGrammar.ParsePath` | packages/shared/src/custom-api-path.ts:46-123 | The index loops give the same parts and the same error, in the same order of checks, as reading the text from the front. |
| `PathTheorems.ParserAcceptsExactlyTheGrammar` | packages/shared/src/custom-api-path.ts:46-123 | A path parses to a part list if and only if it is a writing of that list in the grammar within the limits. |
| `PathTheorems.FormatPath` | packages/shared/src/custom-api-path.ts:172-180 | The loop prints the parts, with a dot before a bare key unless nothing has been written. |
| `PathTheorems.FormatThenParse` | packages/shared/src/custom-api-path.ts:172-180 | parsePath(formatPath(p)) gives p back for every legal part list within the limits. |
| `PathTheorems.FormatParsesBackExactly` | packages/shared/src/custom-api-path.ts:46-180 | The round trip holds if and only if the parts are legal and the part count and the printed length are within the limits. |
| `PathTheorems.PrintIsValidExactly` | packages/shared/src/custom-api-path.ts:169-180 | What a part is printed as is in the grammar if and only if the part is legal. |
| `PathTheorems.LargeIndexDoesNotParse` | packages/shared/src/custom-api-path.ts:97 | Counterexample family: an index of a million or more prints as a path the parser refuses. |
| `PathTheorems.ParseThenFormatIsStable` | packages/shared/src/custom-api-path.ts:46-180 | What parses has legal parts, and printing them gives a path that parses to the same parts. |
| `PathErrors.BareWordExactly` | packages/shared/src/custom-api-path.ts:35-52 | A text is a path of one key, itself, if and only if it is a legal key of at most 256 characters without dots, brackets, double quotes and white space. |
| `PathErrors.KeyIsPrintedBareExactly` | packages/shared/src/custom-api-path.ts:169-180 | A key is printed as it is if and only if it is an identifier with dashes; any other is quoted. |
| `PathErrors.ErrorsAreReportedExactly` | packages/shared/src/custom-api-path.ts:46-125 | For every path and every error: the parser reports that error if and only if a correct beginning of at most sixteen parts is followed by the fault the table lists for it, or the path is too long. |
| `PathScalars.ResolvePath` | packages/shared/src/custom-api-path.ts:142-155 | The loop follows own members and indexes, and stops at the first missing step. |
| `PathScalars.StepExactly` | packages/shared/src/custom-api-path.ts:142-155 | A step goes to the child the part names and never to the member of a forbidden key. |
| `PathScalars.ScalarList.Visit` | packages/shared/src/custom-api-path.ts:202-229 | The recursive visit appends exactly the entries below a value, in order, up to the cap. |
| `PathScalars.ListScalarPaths` | packages/shared/src/custom-api-path.ts:196-232 | The list is the first maxEntries of the full depth-first list at the effective depth. |
| `PathScalars.ListsExactlyTheReachableScalars` | packages/shared/src/custom-api-path.ts:196-232 | An entry is in the full list if and only if its parts, none unnameable, lead to that scalar within the depth and print as that path within the length. |
| `PathScalars.ListedOnceBelow` | packages/shared/src/custom-api-path.ts:202-229 | No part list is listed twice. |
| `PathScalars.ListedPathsParseBackExactly` | packages/shared/src/custom-api-path.ts:215-217 | A listed path parses back to its parts, and then resolves to its value, if and only if every index in it is below a million. |
| `PathScalars.EveryListedPathSelectsItsValue` | packages/shared/src/custom-api-path.ts:196-232 | With no array over a million long every listed path selects its value and no two listed paths are the same text. |
| `Bits.MaskedAreEqualExactly` | packages/shared/src/ipv6.ts:59-64 | Two numbers masked with a prefix mask are equal if and only if their leading prefix bits are. |
| `Bits.MaskedDifferenceIsZeroExactly` | packages/shared/src/ip-match.ts:266-267 | (x ^ y) & mask is zero if and only if the leading prefix bits agree. |
| `Bits.ShiftedOnes` | packages/shared/src/ip-match.ts:266 | The 32-bit shift of 0xffffffff, with its count taken modulo 32 and its result wrapped, is the prefix mask for every prefix from 1 to 32. |
| `Ipv6Text.SerializedIsRead` | packages/shared/src/ipv6.ts:66-79 | Canonical text is read back as the address it was written for, for every eight groups. |
| `Ipv6Text.LongestRun` | packages/shared/src/ipv6.ts:66-79 | The run written as :: starts at the first of the longest runs of zero groups. |
| `Ipv6.ExpandGroups` | packages/shared/src/ipv6.ts:35-48 | Splitting the canonical text at :: and filling in zeros gives the eight groups. |
| `Ipv6.FoldGroups` | packages/shared/src/ipv6.ts:50-55 | The shift-and-or fold gives the address as a number and refuses no canonical group. |
| `Ipv6.Ipv6ToBigInt` | packages/shared/src/ipv6.ts:24-56 | The number of the address the text stands for, None for exactly the texts that are no address. |
| `Ipv6.BigIntToIpv6` | packages/shared/src/ipv6.ts:71-79 | The canonical text of the number's eight groups. |
| `Ipv6.AddressesLookLikeIpv6` | packages/shared/src/ipv6.ts:10-25 | The character check in front of the parser refuses no address. |
| `Ipv6.ToBigIntBound` | packages/shared/src/ipv6.ts:50-55 | Every number read is below 2^128. |
| `Ipv6.RoundTrip` | packages/shared/src/ipv6.ts:24-79 | ipv6ToBigInt(bigIntToIpv6(v)) is v for every v below 2^128. |
| `Ipv6.TextIdentifiesTheValue` | packages/shared/src/ipv6.ts:66-79 | Two values are written alike if and only if they are equal. |
| `IpMatch.Ipv4ToNumber` | packages/shared/src/ip-match.ts:270-281 | The 32-bit wrap in the loop never loses a digit: the result is the number of the four octets, None for anything else. |
| `IpMatch.MatchIpRule` | packages/shared/src/ip-match.ts:33-43 | The loop returns what first-match says for the classified client. |
| `IpMatch.FindCatchAllFamilyGap` | packages/shared/src/ip-match.ts:152-171 | The two loops report exactly the gap of the rule list. |
| `IpTheorems.Ipv4RuleIsPrefixEquality` | packages/shared/src/ip-match.ts:251-268 | An IPv4 subnet rule contains an address if and only if both are well formed and their leading prefix bits agree. |
| `IpTheorems.Ipv6RuleIsPrefixEquality` | packages/shared/src/ip-match.ts:246-249 | An IPv6 rule contains an address if and only if the rule parses and the leading prefix bits agree. |
| `IpTheorems.Ipv6RuleIsAcceptedExactly` | packages/shared/src/ip-match.ts:103-128 | An IPv6 rule is accepted if and only if its address parses and is not mapped and its prefix is one to three digits up to 128; the prefix is then what the text says, 128 without a slash. |
| `IpTheorems.Ipv6RejectionNamesTheReason` | packages/shared/src/ip-match.ts:106-113 | Which reason a refused rule is given: zone, brackets or port, no address, bad prefix or mapped, each in terms of the text. |
| `IpTheorems.Ipv4RoundTrip` | packages/shared/src/ip-match.ts:214-216 | ipv4ToNumber(intToIpv4(n)) is n for every 32-bit n. |
| `IpTheorems.NormalizedIsTheSameClient` | packages/shared/src/ip-match.ts:52-55 | The normalized text is classified as the client it came from. |
| `IpTheorems.NormalizingChangesNoMatch` | packages/shared/src/ip-match.ts:45-55 | Normalizing is idempotent and never changes the matched rule. |
| `IpTheorems.OneLimitKeyPer64` | packages/shared/src/ip-match.ts:66-70 | Two IPv6 clients share a limit key if and only if their top 64 bits agree. |
| `IpTheorems.OneLimitKeyPerIpv4Client` | packages/shared/src/ip-match.ts:66-70 | Two clients that are not IPv6 share a limit key if and only if they are the same client. |
| `IpTheorems.NoLimitKeyAcrossFamilies` | packages/shared/src/ip-match.ts:66-70 | No IPv4 address shares a limit key with an IPv6 client. |
| `IpTheorems.KeyIsItsOwnLimitKey` | packages/shared/src/ip-match.ts:55-70 | Text that is no address can share one: a key sent as an address is its own key. |
| `IpSpelling.CaseDoesNotMatter` | packages/shared/src/ipv6.ts:24-31 | Letter case never changes the address a text stands for. |
| `IpSpelling.MappedClientIsItsIpv4` | packages/shared/src/ip-match.ts:200-212 | An IPv4-mapped client is its IPv4 address in every spelling, the dotted shortcut included. |
| `IpSpelling.ShownRuleIsTheSameRule` | packages/shared/src/ip-match.ts:232-249 | The catch-all check parses a lower-cased rule, the matcher the rule as written; both parse to the same rule. |
| `IpSpelling.AcceptedRuleMatchesItsAddress` | packages/shared/src/ip-match.ts:90-128 | A rule that validates can match: it contains the address it was written with. |
| `IpSpelling.CanonicalIsTheSameRule` | packages/shared/src/ip-match.ts:116-127 | Parsing a rule's canonical text gives the same network, mask, prefix and canonical text. |
| `IpCatchAll.FirstMatchIsFirst` | packages/shared/src/ip-match.ts:33-43 | The matched rule contains the client and none before it does; none at all when nothing matches. |
| `IpCatchAll.EveryAddressIsAClient` | packages/shared/src/ip-match.ts:194-212 | Every parsable IPv6 text is a client of one of the two families. |
| `IpCatchAll.Ipv6CatchAllExactly` | packages/shared/src/ip-match.ts:231-238 | A rule is an IPv6 catch-all for the check if and only if it matches every IPv6 client. |
| `IpCatchAll.Ipv4CatchAllExactly` | packages/shared/src/ip-match.ts:239-244 | A rule is an IPv4 catch-all for the check if and only if it matches every IPv4 client and has no colon. |
| `IpCatchAll.ColonRuleIsMissed` | packages/shared/src/ip-match.ts:251-268 | The functions on a text no rule can have (ColonRuleIsRefused): 0.0.0.0/0 with a colon behind it matches every IPv4 client and is no catch-all for the check. |
| `IpCatchAll.NoGapDecidesEveryClient` | packages/shared/src/ip-match.ts:140-171 | With a DENY catch-all first in its family and no gap reported, every client of either family matches some rule. |
| `IpCatchAll.GapLeavesTheOtherFamilyOpen` | packages/shared/src/ip-match.ts:140-171 | With a gap reported every client of the covered family matches some rule, and no rule covers the other family (for IPv4: no rule without a colon does). |
| `IpRuleSchema.OctetExactly` | packages/shared/src/schemas/ip-rule.ts:30-31 | The schema's octet expression accepts exactly what the matcher reads as an octet: one to three digits with a value up to 255. |
| `IpRuleSchema.Ipv4PrefixExactly` | packages/shared/src/schemas/ip-rule.ts:30-31 | The prefix expression accepts exactly the numbers up to 32 without leading zeros. |
| `IpRuleSchema.StoredSubnetMatchesExactly` | packages/shared/src/ip-match.ts:251-268 | A stored IPv4 rule with a prefix matches exactly the addresses that agree with its own in as many leading bits as the digits behind its slash say. |
| `IpRuleSchema.StoredRuleMatchesItsAddress` | packages/shared/src/schemas/ip-rule.ts:56-95 | As it is stored, an accepted IPv6 rule matches the client at its address, and an accepted IPv4 rule the client whose text is the rule's own spelling of its address. |
| `IpRuleSchema.Ipv4RuleMatchesItsAddressExactly` | packages/shared/src/schemas/ip-rule.ts:56-95 | An accepted IPv4 rule matches the client at its address, in the text a client has, if and only if it has a prefix or no octet with a leading zero. |
| `IpRuleSchema.CanonicalExactly` | packages/shared/src/ip-match.ts:214-216 | An IPv4 text is the one its number is printed as if and only if no octet has a leading zero. |
| `IpRuleSchema.LeadingZeroRuleMisses` | packages/shared/src/ip-match.ts:251-255 | Counterexample: 010.0.0.1 is accepted and stored and misses the client 10.0.0.1, whose number it has; 010.0.0.1/32 matches it. |
| `IpRuleSchema.StoredCatchAllExactly` | packages/shared/src/schemas/ip-rule.ts:56-95 | On every rule the schema stores, the check finds exactly the rules that match every client of the family, with no exception for colons. |
| `IpRuleSchema.GapIsReportedExactly` | packages/shared/src/ip-match.ts:140-171 | On stored rules a gap is reported for a family if and only if the first rule that matches all its clients denies them and no rule matches all clients of the other family. |
| `IpRuleSchema.ColonRuleIsRefused` | packages/shared/src/schemas/ip-rule.ts:30-31 | The schema refuses 0.0.0.0/0 with a colon behind it. |
| `ToolBudget.Budget.Consume` | apps/api/src/ai-tools/ai-tool-budget.service.ts:30-54 | Whether the script allows the call, the counters it leaves and the seconds it returns. |
| `ToolBudget.ACallChargesBothOrNeither` | apps/api/src/ai-tools/ai-tool-budget.service.ts:36-53 | A denied call changes no counter; an allowed one adds one to its own two and leaves all others; no counter it starts is without an expiry. |
| `ToolBudget.RetryIsExact` | apps/api/src/ai-tools/ai-tool-budget.service.ts:36-48 | With no other traffic the call is denied until the returned seconds have passed, and from then on allowed if and only if both limits are above zero. |
| `ToolBudget.RunKeepsCountersTrue` | apps/api/src/ai-tools/ai-tool-budget.service.ts:30-54 | Over every timed run each counter counts its own window exactly, and the hour before that window holds fewer calls than the limit. |
| `ToolBudget.AnyHourHoldsLessThanTwiceTheLimit` | apps/api/src/ai-tools/ai-tool-budget.service.ts:30-54 | In every timed run any 3600 seconds hold at most 2*limit-1 allowed calls per user and per conversation. |
| `ToolBudget.TheBoundIsReached` | apps/api/src/ai-tools/ai-tool-budget.service.ts:28-53 | The bound is tight for all positive limits, per user and per conversation: a run in time order has 2*limit-1 allowed calls within 3600 seconds. |
| `ArticlePatch.ApplyArticleTextEdits` | packages/shared/src/article-patch.ts:25-48 | The loop applies the edits in turn, or stops with the code and index of the first that fails. |
| `ArticlePatch.EditAppliesExactly` | packages/shared/src/article-patch.ts:33-42 | An edit applies if and only if its old text is not empty and occurs exactly once, overlaps counted; the two failure codes likewise. |
| `ArticlePatch.EmptyOldTextIsAlwaysAmbiguous` | packages/shared/src/article-patch.ts:41 | The function on an input its callers refuse: the empty old text is ambiguous even in the empty document, where it occurs once. |
| `ArticlePatch.EditReplacesTheOccurrence` | packages/shared/src/article-patch.ts:44 | The new text stands where the old text stood and nothing else changes. |
| `ArticlePatch.FailureNamesTheFirstBadEdit` | packages/shared/src/article-patch.ts:31-42 | All edits before the reported index apply, and that edit fails on what they leave. |
| `ArticlePatch.ReversedEditsRestoreExactly` | packages/shared/src/article-patch.ts:25-48 | Swapping the edits in reverse gives back the text if and only if each new text is unique after its step; otherwise it fails rather than giving another text. |
| `LayoutFields.RunStatements` | apps/api/src/asset-layouts/asset-layouts.service.ts:534-659 | The statements run in turn and the transaction is dropped at the first that breaks an index. |
| `LayoutFields.Layout.SaveFields` | apps/api/src/asset-layouts/asset-layouts.service.ts:441-654 | Given what an earlier read saw: the checks on that in their order, then the transaction on the layout as it is now, all of its effect or none. |
| `LayoutFields.Layout.AddFieldOnce` | apps/api/src/asset-layouts/asset-layouts.service.ts:807-870 | One attempt on what was read: found, full, raced, or one row added and the version moved. |
| `LayoutFields.PrimaryHoldsAfterEveryStatement` | apps/api/src/asset-layouts/asset-layouts.service.ts:563-581 | With at most one primary in the payload no statement of the transaction leaves two live primaries. |
| `LayoutTheorems.UpsertedIs` | apps/api/src/asset-layouts/asset-layouts.service.ts:583-650 | After any number of statements every row is what its last writer made it, or what it was when the loop started. |
| `LayoutTheorems.SaveShowsThePayloadExactly` | apps/api/src/asset-layouts/asset-layouts.service.ts:534-659 | The live fields are exactly the payload, in order, at positions 0..n-1, if and only if no stored id is used twice. |
| `LayoutTheorems.RepeatedIdLosesAField` | apps/api/src/asset-layouts/asset-layouts.service.ts:583-600 | A stored id used twice leaves the earlier position empty. |
| `LayoutTheorems.SlugsHoldAfterEveryStatementExactly` | apps/api/src/asset-layouts/asset-layouts.service.ts:583-650 | For every payload with distinct slugs, repeated ids included, and whatever earlier read it is compared with: every statement keeps the slug index if and only if no field takes a slug another live field holds at that moment; two fields cannot swap slugs in one save. |
| `LayoutTheorems.SaveSucceedsExactly` | apps/api/src/asset-layouts/asset-layouts.service.ts:441-654 | A payload that passes the schema is saved if and only if the layout read was not archived, no live field is given another type (of fields with one id the last counts), every field with values is still there or the save is forced, and no slug is taken early; otherwise the first of these that fails names the error. |
| `LayoutTheorems.LiveAfterSave` | apps/api/src/asset-layouts/asset-layouts.service.ts:534-650 | After a save on a layout that may have moved on since its read: fields it had not seen stay as they are but for a primary mark; of the rest exactly those the payload fills are live, each at its place in the payload. |
| `LayoutTheorems.SavedPositionsDifferExactly` | apps/api/src/asset-layouts/asset-layouts.service.ts:583-600 | Positions stay distinct if and only if no field the save had not seen stands at a position the payload fills. |
| `LayoutTheorems.SavedCount` | apps/api/src/asset-layouts/asset-layouts.service.ts:534-650 | A save leaves the fields it had not seen and one for each position it fills, and no other. |
| `LayoutAddField.StepsMakeTheSave` | apps/api/src/asset-layouts/asset-layouts.service.ts:433-654 | A save's read and commit with nothing in between are the save: the same error or the same table. |
| `LayoutAddField.EveryRunStaysSound` | apps/api/src/asset-layouts/asset-layouts.service.ts:433-871 | In every interleaving of addField attempts, archiving, and saves that read first and commit later without a version guard: live slugs stay distinct, at most one field is primary, and no two requests added the same row. |
| `LayoutAddField.RunStaysTidyExactly` | apps/api/src/asset-layouts/asset-layouts.service.ts:433-871 | In every such interleaving positions stay distinct and at most a hundred fields live after every event if and only if every save that commits has nothing it had not seen at a position it fills and leaves at most a hundred together; runs without saves therefore always do. |
| `LayoutAddField.SaveThatSawAllIsClean` | apps/api/src/asset-layouts/asset-layouts.service.ts:441-471 | A save that has seen every field live at its commit meets that condition. |
| `LayoutAddField.StaleSaveSharesAPosition` | apps/api/src/asset-layouts/asset-layouts.service.ts:441-654 | Counterexample run, with a payload the schema accepts: a field added between a save's read and its commit shares a position with a saved one. |
| `LayoutAddField.FieldStaysExactly` | apps/api/src/asset-layouts/asset-layouts.service.ts:433-871 | In every interleaving a live field stays live if and only if no committed save that had read it left it out of its payload. |
| `LayoutAddField.AddsLoseNothing` | apps/api/src/asset-layouts/asset-layouts.service.ts:768-871 | In every interleaving in which no save commits, no live field is lost or changed. |
| `LayoutAddField.AddedFieldStandsLast` | apps/api/src/asset-layouts/asset-layouts.service.ts:826-847 | A reported new field stands right behind the highest position of the layout as it was at that moment, primary if and only if there was none; every other row is as it was. |
| `LayoutAddField.AttemptReportsExactly` | apps/api/src/asset-layouts/asset-layouts.service.ts:815-821 | An attempt is refused, finds a field or finds the layout full if and only if what it read is archived, has a live field of that slug, or has none and a hundred live fields. |
| `LayoutAddField.OnlyARacedFirstAttemptIsRetried` | apps/api/src/asset-layouts/asset-layouts.service.ts:790-803 | Only a first attempt that raced is tried again; a conflict is reported only after the second. |
| `LayoutAddField.QuietAttemptDoesNotRace` | apps/api/src/asset-layouts/asset-layouts.service.ts:790-803 | An attempt whose layout nobody changed since its read never ends in a conflict. |
| `AnthropicMessages.Push` | apps/api/src/ai/anthropic-messages.ts:73-78 | Merging into the last message of a role keeps alternation and adds exactly the given blocks. |
| `AnthropicMessages.EachMessageSpeaks` | apps/api/src/ai/anthropic-messages.ts:80-114 | What each message becomes: a tool result that is never empty, the provider's blocks unchanged, or the text as written and one tool use for each call in order; system text goes to the system blocks only. |
| `AnthropicMessages.ToAnthropicMessages` | apps/api/src/ai/anthropic-messages.ts:66-122 | Roles strictly alternate, no message is empty, every block keeps its role and place, and only the last system block carries the cache marker. |
| `AnthropicMessages.RequestIsDetermined` | apps/api/src/ai/anthropic-messages.ts:66-122 | Those three promises leave one possible message list. |
| `AnthropicStream.ParseAnthropicStream` | apps/api/src/ai/anthropic-messages.ts:343-454 | The loop over the events yields the items and the ending of the specification. |
| `AnthropicTheorems.DoneComesLastAndOnlyAfterStop` | apps/api/src/ai/anthropic-messages.ts:343-454 | done comes once, last, and if and only if the first ending event is message_stop; otherwise the stream ends with its named error, or with the TypeError of reading a frame whose JSON is null, and nothing after the end is read. |
| `AnthropicTheorems.SequentialRepliesConserveText` | apps/api/src/ai/anthropic-messages.ts:365-415 | On every finished reply whose blocks come one after another the streamed text is the text of the final blocks. |
| `AnthropicTheorems.ToolCallsConserveTheirJson` | apps/api/src/ai/anthropic-messages.ts:372-428 | However other blocks interleave, a tool block's fragments add up to the JSON sent for it ({} when blank) and its final input is what that JSON stands for. |
| `AnthropicReply.DoneHoldsWhatWasSent` | apps/api/src/ai/anthropic-messages.ts:343-447 | On every finished stream, however blocks interleave and restart: done holds, in the order of their indexes, one block for each index other than texts that stayed empty, and each holds exactly the start, text, thinking, signature and tool input sent for its index since it was last started. |
| `AnthropicReply.DoneReportsTheReason` | apps/api/src/ai/anthropic-messages.ts:271-290 | The finish reason is that of the last stop reason sent that is not empty, as a table. |
| `AnthropicReply.CallsAreOpenedAsSent` | apps/api/src/ai/anthropic-messages.ts:372-393 | Every stream, finished or not, opens exactly the tool calls started, with their ids and names, in order. |
| `AnthropicReply.TextsAreYieldedAsSent` | apps/api/src/ai/anthropic-messages.ts:394-408 | Every stream yields the texts piece by piece as they were sent to started blocks. |
| `AnthropicReply.ErrorNamesAreBounded` | apps/api/src/ai/anthropic-messages.ts:434-441 | The error name is the sent type when that is one to forty lower-case letters and underscores, and unknown_error otherwise. |

## Left out

- Asset target resolution (match-first index, co-binding lock, claims), identity and name changes, uniqueness checks, the optimistic guard and retry of the asset write, dry runs, FILE and TAGS hydration and CSV export: queries and I/O around the field policy.
- Checksums are the values they are taken of (SHA-256 of the JSON text is treated as injective), and canonicalisation of field values is the identity.
- AssetWriter.Asset.SyncFields: models the write with difference recording on an existing target only, which is the branch the priority rules apply to.
- ArticleService.Article.Update: `existing` is read outside the transaction in the source; here each operation is one atomic step, so races between two people's operations are not modelled.
- ArticleService.Article.Archive: upload tombstoning, AI summary columns, plain text, actors and audit rows are separate concerns and not part of the state.
- Slug uniqueness across articles is an answer of the environment; the guarding database index is not part of this model.
- IntegrationArticleWriter.NoLostUpdate: the managed folder's savepoint, permission checks and the identity of the bound row are not modelled, and the guarded columns (revision, archive mark, update time) are one write stamp that every write of the row moves.
- Lengths and characters: text is a sequence of characters, not of UTF-16 units; `TextDecoder` (with its byte order mark) and JSON parsing are foreign and not modelled.
- Letter case: `toLowerCase` and the case-insensitive flag are modelled on ASCII letters, and in `visibleText` also on the Kelvin sign and the dotted capital I, the characters that can affect a tag.
- buildPatchPreview: branching around `applyArticleTextEdits` and `computeLineDiff`, both modelled, that would add only easy members.
- Help-search scoring around `fuzzyStrongMatch`: weights without an exact statement of meaning.
- Sse.ParseSse: the reader's cancellation and errors are not modelled; only the event and data fields of the standard's algorithm are.
- PathScalars.ListsExactlyTheReachableScalars: a JSON object is a list of members with distinct names in `Object.keys` order; values that cannot come from JSON (functions, undefined, non-finite numbers) are not modelled, nor is `readPath`, a case split over the result of `resolvePath`.
- Ipv6Text.SerializedIsRead: the URL host parser and serializer are foreign; in their place stand the text forms of section 2.2 of RFC 4291 and the canonical form of section 4.2 of RFC 5952, with IPv4 tails read without leading zeros.
- IpRuleSchema.StoredCatchAllExactly: the schema's messages are not modelled, only what it accepts and what it stores; nor are the wording of rule rejections and of the gap message.
- ToolBudget.AnyHourHoldsLessThanTwiceTheLimit: the clock counts whole seconds, a key is gone exactly when its seconds have passed, and the refusal when Redis is unreachable is not modelled.
- LayoutFields.Layout.SaveFields: option validation, deletion of the removed fields' values under force, audit rows and reindexing are not part of the state.
- LayoutAddField.EveryRunStaysSound: a save's transaction and an attempt's transaction are one step each, so an addField that commits between two statements of a save is not modelled, and the unique indexes are checked on the whole table after each statement.
- AnthropicMessages.ToAnthropicMessages: tool inputs are the text they are parsed from; request assembly, tool schemas and model tables are left out.
- AnthropicStream.ParseAnthropicStream: events come with their JSON parsed, the index of a frame is a whole number, a block that is neither text nor tool use starts without a text property, and a text block without thinking or signature.
- AnthropicTheorems.SequentialRepliesConserveText: blocks must come one after another with growing indexes, as the API sends them, because text items carry no index.
- Hashing, encryption, tokens, e-mail, queues, HTTP controllers, React and the service worker: plumbing without exact statements to prove.
