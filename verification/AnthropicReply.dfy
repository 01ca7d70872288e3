// What `done` and the tool-call items of a streamed reply say, in terms of the events
// sent, however the blocks interleave (apps/api/src/ai/anthropic-messages.ts).
module AnthropicReply {
  import opened Basics
  import opened Text
  import opened AnthropicMessages
  import opened AnthropicStream
  import opened AnthropicTheorems

  // --------------------------------------------------------------------
  // What was sent for one index
  // --------------------------------------------------------------------

  predicate Starts(e: Event, index: int) { e.BlockStart? && e.index == index }

  // The block last started at the index.
  function StartSent(events: seq<Event>, index: int): Option<StartBlock> {
    if events == [] then None
    else
      var n := |events| - 1;
      if Starts(events[n], index) then Some(events[n].block) else StartSent(events[..n], index)
  }

  // A thinking block may start with some of its thinking, or its signature.
  function StartedThinking(events: seq<Event>, index: int): string {
    var start := StartSent(events, index);
    if start.Some? && start.value.StartOther? then start.value.thinking else ""
  }

  function StartedSignature(events: seq<Event>, index: int): string {
    var start := StartSent(events, index);
    if start.Some? && start.value.StartOther? then start.value.signature else ""
  }

  // One part of all deltas for the index since it was last started, in order.
  function DeltasSent(events: seq<Event>, index: int, part: Delta -> string): string {
    if events == [] then ""
    else
      var n := |events| - 1;
      if Starts(events[n], index) then ""
      else
        DeltasSent(events[..n], index, part)
        + if events[n].BlockDelta? && events[n].index == index then part(events[n].delta) else ""
  }

  function TextPart(d: Delta): string { if d.TextDelta? then d.text else "" }

  function JsonPart(d: Delta): string { if d.InputJsonDelta? then d.partialJson else "" }

  function ThinkingPart(d: Delta): string { if d.ThinkingDelta? then d.thinking else "" }

  function SignaturePart(d: Delta): string { if d.SignatureDelta? then d.signature else "" }

  // The JSON sent when a tool block was last stopped, if it was since its start.
  function JsonAtStop(events: seq<Event>, index: int): Option<string> {
    if events == [] then None
    else
      var n := |events| - 1;
      if Starts(events[n], index) then None
      else if events[n] == BlockStop(index) then Some(DeltasSent(events[..n], index, JsonPart))
      else JsonAtStop(events[..n], index)
  }

  // The block holds exactly what was sent for its index.
  predicate HoldsWhatWasSent(c: Content, events: seq<Event>, index: int) {
    && c.thinking == StartedThinking(events, index) + DeltasSent(events, index, ThinkingPart)
    && c.signature == StartedSignature(events, index) + DeltasSent(events, index, SignaturePart)
    && match StartSent(events, index)
       case None => false
       case Some(StartText(text)) =>
         c.kind == TextKind && c.input == EmptyInput && c.text == text + DeltasSent(events, index, TextPart)
       case Some(StartOther(json, _, _)) =>
         c.kind == OtherKind(json) && c.input == EmptyInput && c.text == DeltasSent(events, index, TextPart)
       case Some(StartTool(id, name)) =>
         && c.kind == ToolKind(id, name) && c.text == DeltasSent(events, index, TextPart)
         && c.input == match JsonAtStop(events, index)
                       case None => EmptyInput
                       case Some(json) => if Trim(json) == "" then EmptyInput else ParsedFrom(json)
  }

  // --------------------------------------------------------------------
  // The state the events leave
  // --------------------------------------------------------------------

  function Folded(events: seq<Event>, st: State): State {
    if events == [] then st else After(Folded(events[..|events| - 1], st), events[|events| - 1])
  }

  ghost predicate BlockIsAsSent(st: State, events: seq<Event>, index: int) {
    && (index in st.blocks <==> StartSent(events, index).Some?)
    && (index in st.blocks ==>
          && st.blocks[index].json == DeltasSent(events, index, JsonPart)
          && HoldsWhatWasSent(st.blocks[index].block, events, index))
  }

  lemma StartIsHeld(st: State, front: seq<Event>, e: Event, events: seq<Event>, index: int)
    requires events == front + [e] && Starts(e, index)
    ensures BlockIsAsSent(After(st, e), events, index)
  {
    assert events[..|events| - 1] == front && events[|events| - 1] == e;
    if e.block.StartText? { assert e.block.text + "" == e.block.text; }
  }

  // A delta adds its part, and any other event that is no start adds nothing.
  lemma OneMoreSent(front: seq<Event>, e: Event, events: seq<Event>, index: int, part: Delta -> string)
    requires events == front + [e] && !Starts(e, index)
    ensures DeltasSent(events, index, part)
         == DeltasSent(front, index, part) + if e.BlockDelta? && e.index == index then part(e.delta) else ""
  {
    assert events[..|events| - 1] == front && events[|events| - 1] == e;
  }

  lemma StartStays(front: seq<Event>, e: Event, events: seq<Event>, index: int)
    requires events == front + [e] && !Starts(e, index)
    ensures StartSent(events, index) == StartSent(front, index)
    ensures JsonAtStop(events, index)
         == if e == BlockStop(index) then Some(DeltasSent(front, index, JsonPart)) else JsonAtStop(front, index)
  {
    assert events[..|events| - 1] == front && events[|events| - 1] == e;
  }

  lemma PartsGrow(s: Content, d: Delta)
    ensures var t := Extended(BlockState(s, ""), d).block;
            && t.text == s.text + TextPart(d) && t.thinking == s.thinking + ThinkingPart(d)
            && t.signature == s.signature + SignaturePart(d) && t.kind == s.kind && t.input == s.input
  {
    assert s.thinking + "" == s.thinking && s.signature + "" == s.signature && s.text + "" == s.text;
  }

  lemma ExtendedGrows(s: BlockState, d: Delta)
    ensures Extended(s, d).block == Extended(BlockState(s.block, ""), d).block
    ensures Extended(s, d).json == s.json + JsonPart(d)
  {
    assert s.json + "" == s.json;
  }

  lemma DeltaHolds(s: Content, t: Content, front: seq<Event>, d: Delta, events: seq<Event>, index: int)
    requires events == front + [BlockDelta(index, d)] && HoldsWhatWasSent(s, front, index)
    requires t.text == s.text + TextPart(d) && t.thinking == s.thinking + ThinkingPart(d)
          && t.signature == s.signature + SignaturePart(d) && t.kind == s.kind && t.input == s.input
    ensures HoldsWhatWasSent(t, events, index)
  {
    var e := BlockDelta(index, d);
    StartStays(front, e, events, index);
    OneMoreSent(front, e, events, index, TextPart);
    OneMoreSent(front, e, events, index, ThinkingPart);
    OneMoreSent(front, e, events, index, SignaturePart);
    Reassociate(StartedThinking(front, index), DeltasSent(front, index, ThinkingPart), ThinkingPart(d));
    Reassociate(StartedSignature(front, index), DeltasSent(front, index, SignaturePart), SignaturePart(d));
    var start := StartSent(front, index);
    if start.value.StartText? { Reassociate(start.value.text, DeltasSent(front, index, TextPart), TextPart(d)); }
  }

  lemma DeltaIsHeld(st: State, front: seq<Event>, d: Delta, events: seq<Event>, index: int)
    requires events == front + [BlockDelta(index, d)] && BlockIsAsSent(st, front, index)
    ensures BlockIsAsSent(After(st, BlockDelta(index, d)), events, index)
  {
    StartStays(front, BlockDelta(index, d), events, index);
    if index in st.blocks {
      var s := st.blocks[index];
      ExtendedGrows(s, d);
      PartsGrow(s.block, d);
      OneMoreSent(front, BlockDelta(index, d), events, index, JsonPart);
      DeltaHolds(s.block, Extended(s, d).block, front, d, events, index);
    }
  }

  lemma OtherSendsNothing(front: seq<Event>, e: Event, events: seq<Event>, index: int, part: Delta -> string)
    requires events == front + [e] && !Starts(e, index) && !(e.BlockDelta? && e.index == index)
    ensures DeltasSent(events, index, part) == DeltasSent(front, index, part)
  {
    OneMoreSent(front, e, events, index, part);
    var was := DeltasSent(front, index, part);
    assert was + "" == was;
  }

  lemma OtherEventOnBlock(st: State, e: Event, index: int)
    requires !Starts(e, index) && !(e.BlockDelta? && e.index == index)
    ensures index in After(st, e).blocks <==> index in st.blocks
    ensures index in st.blocks ==>
      After(st, e).blocks[index] == if e == BlockStop(index) then Stopped(st.blocks[index]) else st.blocks[index]
  {
  }

  lemma StopHolds(s: BlockState, front: seq<Event>, events: seq<Event>, index: int)
    requires events == front + [BlockStop(index)] && HoldsWhatWasSent(s.block, front, index)
    requires s.json == DeltasSent(front, index, JsonPart)
    ensures HoldsWhatWasSent(Stopped(s).block, events, index)
  {
    AllSentStays(front, BlockStop(index), events, index);
  }

  lemma AllSentStays(front: seq<Event>, e: Event, events: seq<Event>, index: int)
    requires events == front + [e] && !Starts(e, index) && !(e.BlockDelta? && e.index == index)
    ensures DeltasSent(events, index, TextPart) == DeltasSent(front, index, TextPart)
    ensures DeltasSent(events, index, JsonPart) == DeltasSent(front, index, JsonPart)
    ensures DeltasSent(events, index, ThinkingPart) == DeltasSent(front, index, ThinkingPart)
    ensures DeltasSent(events, index, SignaturePart) == DeltasSent(front, index, SignaturePart)
    ensures StartSent(events, index) == StartSent(front, index)
    ensures JsonAtStop(events, index)
         == if e == BlockStop(index) then Some(DeltasSent(front, index, JsonPart)) else JsonAtStop(front, index)
  {
    StartStays(front, e, events, index);
    OtherSendsNothing(front, e, events, index, TextPart);
    OtherSendsNothing(front, e, events, index, JsonPart);
    OtherSendsNothing(front, e, events, index, ThinkingPart);
    OtherSendsNothing(front, e, events, index, SignaturePart);
  }

  lemma OtherIsHeld(st: State, front: seq<Event>, e: Event, events: seq<Event>, index: int)
    requires events == front + [e] && BlockIsAsSent(st, front, index)
    requires !Starts(e, index) && !(e.BlockDelta? && e.index == index)
    ensures BlockIsAsSent(After(st, e), events, index)
  {
    OtherEventOnBlock(st, e, index);
    AllSentStays(front, e, events, index);
    if index in st.blocks && e == BlockStop(index) { StopHolds(st.blocks[index], front, events, index); }
  }

  lemma {:induction false} FoldedIsAsSent(events: seq<Event>, index: int)
    ensures BlockIsAsSent(Folded(events, INITIAL), events, index)
  {
    if events != [] {
      var n := |events| - 1;
      var st, e := Folded(events[..n], INITIAL), events[n];
      FoldedIsAsSent(events[..n], index);
      assert events == events[..n] + [e];
      if Starts(e, index) {
        StartIsHeld(st, events[..n], e, events, index);
      } else if e.BlockDelta? && e.index == index {
        DeltaIsHeld(st, events[..n], e.delta, events, index);
      } else {
        OtherIsHeld(st, events[..n], e, events, index);
      }
    }
  }

  lemma {:induction false} FoldedFront(events: seq<Event>, st: State)
    requires events != []
    ensures Folded(events, st) == Folded(events[1..], After(st, events[0]))
  {
    var n := |events| - 1;
    if n == 0 {
      assert events[..0] == [] && events[1..] == [];
    } else {
      FoldedFront(events[..n], st);
      assert events[..n][1..] == events[1..][..n - 1];
    }
  }

  predicate EndsWith(items: seq<Item>, last: Item) { items != [] && items[|items| - 1] == last }

  lemma FoldedUpToTheEnd(events: seq<Event>, st: State)
    requires events != [] && !EndsTheStream(events[0])
    ensures FirstEnd(events) == 1 + FirstEnd(events[1..])
    ensures Folded(events[..FirstEnd(events)], st) == Folded(events[1..][..FirstEnd(events[1..])], After(st, events[0]))
  {
    var end := FirstEnd(events);
    FoldedFront(events[..end], st);
    assert events[..end][1..] == events[1..][..end - 1];
  }

  lemma StreamGoesOn(events: seq<Event>, st: State, last: Item)
    requires events != [] && !EndsTheStream(events[0])
    requires EndsWith(Stream(events[1..], After(st, events[0])).items, last)
    ensures EndsWith(Stream(events, st).items, last)
  {
  }

  // The item that ends a finished stream is made of the state its events leave.
  lemma {:induction false} StreamEndsWith(events: seq<Event>, st: State, last: State)
    requires Stream(events, st).error.None? && last == Folded(events[..FirstEnd(events)], st)
    ensures EndsWith(Stream(events, st).items, Done(MapStopReason(last.stopReason), FinalBlocks(last.blocks)))
    decreases |events|
  {
    if EndsTheStream(events[0]) {
      assert events[..0] == [];
    } else {
      FoldedUpToTheEnd(events, st);
      StreamEndsWith(events[1..], After(st, events[0]), last);
      StreamGoesOn(events, st, Done(MapStopReason(last.stopReason), FinalBlocks(last.blocks)));
    }
  }

  // --------------------------------------------------------------------
  // The order of the blocks
  // --------------------------------------------------------------------

  predicate IsAscending(keys: seq<int>) { forall i, j | 0 <= i < j < |keys| :: keys[i] < keys[j] }

  lemma {:induction false} AscendingIsAscending(s: set<int>)
    ensures IsAscending(Ascending(s))
    decreases |s|
  {
    if |s| > 0 {
      var front := Ascending(s - {Largest(s)});
      AscendingIsAscending(s - {Largest(s)});
      forall i | 0 <= i < |front| ensures front[i] < Largest(s) { assert front[i] in front; }
    }
  }

  // The keys whose blocks are kept, in order.
  function KeptKeys(blocks: map<int, BlockState>, keys: seq<int>): (kept: seq<int>)
    requires forall k | k in keys :: k in blocks
    ensures forall k :: k in kept <==> k in keys && !IsEmptyText(blocks[k].block)
  {
    if keys == [] then []
    else
      var n := |keys| - 1;
      var last := keys[n];
      assert last in keys && keys == keys[..n] + [last];
      KeptKeys(blocks, keys[..n]) + if IsEmptyText(blocks[last].block) then [] else [last]
  }

  ghost predicate AreBlocksOf(contents: seq<Content>, blocks: map<int, BlockState>, keys: seq<int>) {
    |contents| == |keys| && forall i | 0 <= i < |keys| :: keys[i] in blocks && contents[i] == blocks[keys[i]].block
  }

  lemma AscendingAppend(kept: seq<int>, keys: seq<int>, last: int)
    requires IsAscending(kept) && IsAscending(keys + [last]) && forall k | k in kept :: k in keys
    ensures IsAscending(kept + [last])
  {
    var all := keys + [last];
    forall i | 0 <= i < |kept| ensures kept[i] < last {
      assert kept[i] in kept && kept[i] in keys;
      var j :| 0 <= j < |keys| && keys[j] == kept[i];
      assert all[j] < all[|keys|];
    }
  }

  lemma BlocksAtLast(blocks: map<int, BlockState>, front: seq<int>, last: int, keys: seq<int>)
    requires keys == front + [last] && forall k | k in keys :: k in blocks
    ensures last in keys && forall k | k in front :: k in keys
    ensures BlocksAt(blocks, keys) == BlocksAt(blocks, front) + [blocks[last].block]
    ensures KeptKeys(blocks, keys)
         == KeptKeys(blocks, front) + if IsEmptyText(blocks[last].block) then [] else [last]
  {
    assert keys[|keys| - 1] == last && keys[..|keys| - 1] == front;
  }

  lemma WithoutEmptyTextsAppend(contents: seq<Content>, last: Content)
    ensures WithoutEmptyTexts(contents + [last])
         == WithoutEmptyTexts(contents) + if IsEmptyText(last) then [] else [last]
  {
    var all := contents + [last];
    assert all[..|all| - 1] == contents && all[|all| - 1] == last;
  }

  lemma OneMoreKept(contents: seq<Content>, kept: seq<int>, blocks: map<int, BlockState>, last: int)
    requires AreBlocksOf(contents, blocks, kept) && last in blocks
    ensures AreBlocksOf(contents + [blocks[last].block], blocks, kept + [last])
  {
  }

  lemma {:induction false} KeptBlocks(blocks: map<int, BlockState>, keys: seq<int>)
    requires IsAscending(keys) && forall k | k in keys :: k in blocks
    ensures IsAscending(KeptKeys(blocks, keys))
    ensures AreBlocksOf(WithoutEmptyTexts(BlocksAt(blocks, keys)), blocks, KeptKeys(blocks, keys))
  {
    if keys != [] {
      var n := |keys| - 1;
      var front, last := keys[..n], keys[n];
      assert keys == front + [last];
      KeptBlocks(blocks, front);
      BlocksAtLast(blocks, front, last, keys);
      AscendingAppend(KeptKeys(blocks, front), front, last);
      WithoutEmptyTextsAppend(BlocksAt(blocks, front), blocks[last].block);
      OneMoreKept(WithoutEmptyTexts(BlocksAt(blocks, front)), KeptKeys(blocks, front), blocks, last);
    }
  }

  // --------------------------------------------------------------------
  // The last item
  // --------------------------------------------------------------------

  // An index is shown when a block was started there, other than a text that stayed empty.
  predicate IsShown(events: seq<Event>, index: int) {
    match StartSent(events, index)
    case None => false
    case Some(StartText(text)) => text + DeltasSent(events, index, TextPart) != ""
    case Some(_) => true
  }

  // In the order of their indexes, one block for each shown index, holding what was
  // sent for it.
  ghost predicate AreAsSent(contents: seq<Content>, sent: seq<Event>, keys: seq<int>) {
    && IsAscending(keys) && (forall k :: k in keys <==> IsShown(sent, k))
    && |contents| == |keys| && forall i | 0 <= i < |keys| :: HoldsWhatWasSent(contents[i], sent, keys[i])
  }

  lemma ShownExactly(sent: seq<Event>, blocks: map<int, BlockState>, k: int)
    requires blocks == Folded(sent, INITIAL).blocks
    ensures IsShown(sent, k) <==> k in blocks && !IsEmptyText(blocks[k].block)
    ensures k in blocks ==> HoldsWhatWasSent(blocks[k].block, sent, k)
  {
    FoldedIsAsSent(sent, k);
  }

  lemma FinalBlocksAreAsSent(sent: seq<Event>, blocks: map<int, BlockState>) returns (keys: seq<int>)
    requires blocks == Folded(sent, INITIAL).blocks
    ensures AreAsSent(FinalBlocks(blocks), sent, keys)
  {
    var all := Ascending(blocks.Keys);
    AscendingIsAscending(blocks.Keys);
    KeptBlocks(blocks, all);
    keys := KeptKeys(blocks, all);
    forall k ensures k in keys <==> IsShown(sent, k) { ShownExactly(sent, blocks, k); }
    forall i | 0 <= i < |keys| ensures HoldsWhatWasSent(FinalBlocks(blocks)[i], sent, keys[i]) {
      ShownExactly(sent, blocks, keys[i]);
    }
  }

  // The blocks of `done` stand in the order of their indexes, one for each shown index,
  // and each holds the start, the text, the thinking, the signature and the tool input
  // sent for its index since it was last started, whatever came in between.
  lemma DoneHoldsWhatWasSent(events: seq<Event>) returns (keys: seq<int>, done: Item)
    requires Stream(events, INITIAL).error.None?
    ensures EndsWith(Stream(events, INITIAL).items, done) && done.Done?
    ensures AreAsSent(done.blocks, events[..FirstEnd(events)], keys)
  {
    var sent := events[..FirstEnd(events)];
    var last := Folded(sent, INITIAL);
    StreamEndsWith(events, INITIAL, last);
    keys := FinalBlocksAreAsSent(sent, last.blocks);
    done := Done(MapStopReason(last.stopReason), FinalBlocks(last.blocks));
  }

  // The last stop reason sent that is not empty.
  function ReasonSent(events: seq<Event>): Option<string> {
    if events == [] then None
    else
      var n := |events| - 1;
      if events[n].MessageDelta? && events[n].stopReason.Some? && events[n].stopReason != Some("")
      then events[n].stopReason
      else ReasonSent(events[..n])
  }

  lemma {:induction false} FoldedReason(events: seq<Event>)
    ensures Folded(events, INITIAL).stopReason == ReasonSent(events)
  {
    if events != [] { FoldedReason(events[..|events| - 1]); }
  }

  ghost predicate ReportsReason(finish: Option<string>, reason: Option<string>) {
    && (finish == None <==> reason == None)
    && (finish == Some("tool_calls") <==> reason == Some("tool_use"))
    && (finish == Some("refusal") <==> reason == Some("refusal"))
    && (finish == Some("length") <==>
          reason == Some("max_tokens") || reason == Some("model_context_window_exceeded"))
    && finish in {None, Some("tool_calls"), Some("refusal"), Some("length"), Some("stop")}
  }

  lemma MappedReason(reason: Option<string>)
    ensures ReportsReason(MapStopReason(reason), reason)
  {
  }

  // What `done` reports for it; a reason added later counts as an ordinary stop.
  lemma DoneReportsTheReason(events: seq<Event>) returns (done: Item)
    requires Stream(events, INITIAL).error.None?
    ensures EndsWith(Stream(events, INITIAL).items, done) && done.Done?
    ensures ReportsReason(done.finishReason, ReasonSent(events[..FirstEnd(events)]))
  {
    var last := Folded(events[..FirstEnd(events)], INITIAL);
    StreamEndsWith(events, INITIAL, last);
    FoldedReason(events[..FirstEnd(events)]);
    MappedReason(last.stopReason);
    done := Done(MapStopReason(last.stopReason), FinalBlocks(last.blocks));
  }

  // --------------------------------------------------------------------
  // The names of the tool calls
  // --------------------------------------------------------------------

  // The items that open a tool call at the index: they alone carry an id or a name.
  function CallsOpened(items: seq<Item>, index: int): seq<(Option<string>, Option<string>)> {
    if items == [] then []
    else
      (if items[0].ToolCallDelta? && items[0].index == index && (items[0].id.Some? || items[0].name.Some?)
       then [(items[0].id, items[0].name)] else [])
      + CallsOpened(items[1..], index)
  }

  function CallsSent(events: seq<Event>, index: int): seq<(Option<string>, Option<string>)> {
    if events == [] || EndsTheStream(events[0]) then []
    else
      (if Starts(events[0], index) && events[0].block.StartTool?
       then [(Some(events[0].block.id), Some(events[0].block.name))] else [])
      + CallsSent(events[1..], index)
  }

  lemma {:induction false} CallsAppend(a: seq<Item>, b: seq<Item>, index: int)
    ensures CallsOpened(a + b, index) == CallsOpened(a, index) + CallsOpened(b, index)
  {
    if a == [] {
      assert a + b == b;
    } else {
      assert (a + b)[1..] == a[1..] + b && (a + b)[0] == a[0];
      CallsAppend(a[1..], b, index);
    }
  }

  lemma OneEventsCalls(st: State, e: Event, index: int)
    requires !EndsTheStream(e)
    ensures CallsOpened(Emitted(st, e), index)
         == if Starts(e, index) && e.block.StartTool? then [(Some(e.block.id), Some(e.block.name))] else []
  {
    var items := Emitted(st, e);
    if items != [] { assert items[1..] == []; }
  }

  // Every stream, finished or not, opens exactly the tool calls that were started, with
  // their ids and names and in order.
  lemma {:induction false} CallsAreOpenedAsSent(events: seq<Event>, st: State, index: int)
    ensures CallsOpened(Stream(events, st).items, index) == CallsSent(events, index)
    decreases |events|
  {
    if events != [] && !EndsTheStream(events[0]) {
      CallsAreOpenedAsSent(events[1..], After(st, events[0]), index);
      CallsAppend(Emitted(st, events[0]), Stream(events[1..], After(st, events[0])).items, index);
      OneEventsCalls(st, events[0], index);
    } else if events != [] && events[0].MessageStop? {
      assert Stream(events, st).items[1..] == [];
    }
  }

  // --------------------------------------------------------------------
  // The text items
  // --------------------------------------------------------------------

  function TextItems(items: seq<Item>): seq<string> {
    if items == [] then []
    else (if items[0].TextItem? then [items[0].text] else []) + TextItems(items[1..])
  }

  // What a text block starts with, unless it is empty, and every text delta for an
  // index at which a block was started, even an empty one.
  function TextsSent(events: seq<Event>, started: set<int>): seq<string> {
    if events == [] || EndsTheStream(events[0]) then []
    else
      (match events[0]
       case BlockStart(_, StartText(text)) => if text != "" then [text] else []
       case BlockDelta(index, TextDelta(text)) => if index in started then [text] else []
       case _ => [])
      + TextsSent(events[1..], started + if events[0].BlockStart? then {events[0].index} else {})
  }

  lemma {:induction false} TextItemsAppend(a: seq<Item>, b: seq<Item>)
    ensures TextItems(a + b) == TextItems(a) + TextItems(b)
  {
    if a == [] {
      assert a + b == b;
    } else {
      assert (a + b)[1..] == a[1..] + b && (a + b)[0] == a[0];
      TextItemsAppend(a[1..], b);
    }
  }

  lemma OneEventsTexts(st: State, e: Event)
    requires !EndsTheStream(e)
    ensures TextItems(Emitted(st, e))
         == match e
            case BlockStart(_, StartText(text)) => if text != "" then [text] else []
            case BlockDelta(index, TextDelta(text)) => if index in st.blocks.Keys then [text] else []
            case _ => []
    ensures After(st, e).blocks.Keys == st.blocks.Keys + if e.BlockStart? then {e.index} else {}
  {
    var items := Emitted(st, e);
    if items != [] { assert items[1..] == []; }
  }

  // Every stream, finished or not, yields the texts as they were sent, piece by piece.
  lemma {:induction false} TextsAreYieldedAsSent(events: seq<Event>, st: State)
    ensures TextItems(Stream(events, st).items) == TextsSent(events, st.blocks.Keys)
    decreases |events|
  {
    if events != [] && !EndsTheStream(events[0]) {
      TextsAreYieldedAsSent(events[1..], After(st, events[0]));
      TextItemsAppend(Emitted(st, events[0]), Stream(events[1..], After(st, events[0])).items);
      OneEventsTexts(st, events[0]);
    } else if events != [] && events[0].MessageStop? {
      assert Stream(events, st).items[1..] == [];
    }
  }

  // The name an error is reported under is a short identifier, and the sent one
  // whenever that is one.
  lemma ErrorNamesAreBounded(errorType: Option<string>)
    ensures var name := ErrorName(errorType);
            && 1 <= |name| <= 40 && (forall k | 0 <= k < |name| :: name[k] == '_' || 'a' <= name[k] <= 'z')
            && (errorType != Some(name) ==>
                  && name == "unknown_error"
                  && (errorType.Some? ==>
                        || errorType.value == "" || |errorType.value| > 40
                        || exists k | 0 <= k < |errorType.value| ::
                             errorType.value[k] != '_' && !('a' <= errorType.value[k] <= 'z')))
  {
  }
}
