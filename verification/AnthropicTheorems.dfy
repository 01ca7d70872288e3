// What a streamed reply conserves: its text, its tool arguments, and its ending.
module AnthropicTheorems {
  import opened Basics
  import opened Text
  import opened AnthropicMessages
  import opened AnthropicStream

  // --------------------------------------------------------------------
  // The ending
  // --------------------------------------------------------------------

  predicate EndsTheStream(e: Event) { e.MessageStop? || e.ErrorEvent? || e.NullFrame? }

  // The first event that ends the stream; |events| when none does.
  function FirstEnd(events: seq<Event>): (k: nat)
    ensures k <= |events| && (forall j | 0 <= j < k :: !EndsTheStream(events[j]))
         && (k < |events| ==> EndsTheStream(events[k]))
  {
    if events == [] || EndsTheStream(events[0]) then 0 else 1 + FirstEnd(events[1..])
  }

  // `done` is yielded only after message_stop, once, and last; a stream that ends
  // with an error or is cut off yields none; nothing after the end is read.
  lemma {:induction false} DoneComesLastAndOnlyAfterStop(events: seq<Event>, st: State)
    ensures var o, end := Stream(events, st), FirstEnd(events);
            && (forall k | 0 <= k < |o.items| - 1 :: !o.items[k].Done?)
            && (o.error.None? <==> o.items != [] && o.items[|o.items| - 1].Done?)
            && o.error == if end == |events| then Some(StreamError("stream_interrupted"))
                          else if events[end].MessageStop? then None
                          else if events[end].NullFrame? then Some(TypeError)
                          else Some(StreamError(ErrorName(events[end].errorType)))
    decreases |events|
  {
    if events != [] && !EndsTheStream(events[0]) {
      var more := Emitted(st, events[0]);
      DoneComesLastAndOnlyAfterStop(events[1..], After(st, events[0]));
      assert forall k | 0 <= k < |more| :: !more[k].Done?;
    }
  }

  // --------------------------------------------------------------------
  // Text
  // --------------------------------------------------------------------

  function TextsOf(items: seq<Item>): string {
    if items == [] then ""
    else (if items[0].TextItem? then items[0].text else "") + TextsOf(items[1..])
  }

  function TextsIn(contents: seq<Content>): string {
    if contents == [] then "" else TextsIn(contents[..|contents| - 1]) + contents[|contents| - 1].text
  }

  lemma {:induction false} TextsOfAppend(a: seq<Item>, b: seq<Item>)
    ensures TextsOf(a + b) == TextsOf(a) + TextsOf(b)
  {
    if a == [] {
      assert a + b == b;
    } else {
      assert (a + b)[1..] == a[1..] + b && (a + b)[0] == a[0];
      TextsOfAppend(a[1..], b);
      Reassociate(if a[0].TextItem? then a[0].text else "", TextsOf(a[1..]), TextsOf(b));
    }
  }

  lemma {:induction false} EmptyTextsSayNothing(contents: seq<Content>)
    ensures TextsIn(WithoutEmptyTexts(contents)) == TextsIn(contents)
  {
    if contents != [] {
      var front, last := contents[..|contents| - 1], contents[|contents| - 1];
      EmptyTextsSayNothing(front);
      if IsEmptyText(last) {
        assert WithoutEmptyTexts(contents) == WithoutEmptyTexts(front) + [];
        assert WithoutEmptyTexts(front) + [] == WithoutEmptyTexts(front);
        assert TextsIn(front) + "" == TextsIn(front);
      } else {
        assert (WithoutEmptyTexts(front) + [last])[..|WithoutEmptyTexts(front)|] == WithoutEmptyTexts(front);
      }
    }
  }

  function AllText(blocks: map<int, BlockState>): string { TextsIn(BlocksAt(blocks, Ascending(blocks.Keys))) }

  lemma LargestIsLast(s: set<int>, m: int)
    requires m in s && forall k | k in s :: k <= m
    ensures Ascending(s) == Ascending(s - {m}) + [m]
  {
    assert Largest(s) == m;
  }

  lemma {:induction false} BlocksElsewhere(a: map<int, BlockState>, b: map<int, BlockState>, keys: seq<int>)
    requires forall k | k in keys :: k in a && k in b && a[k] == b[k]
    ensures BlocksAt(a, keys) == BlocksAt(b, keys)
  {
    if keys != [] {
      assert keys[|keys| - 1] in keys;
      BlocksElsewhere(a, b, keys[..|keys| - 1]);
    }
  }

  // Writing the block of the largest index changes only the end of the text.
  lemma LastBlockText(blocks: map<int, BlockState>, index: int, s: BlockState)
    requires forall k | k in blocks :: k <= index
    ensures AllText(blocks[index := s]) == AllText(blocks - {index}) + s.block.text
  {
    var now, before := blocks[index := s], blocks - {index};
    assert now.Keys == blocks.Keys + {index} && before.Keys == now.Keys - {index};
    LargestIsLast(now.Keys, index);
    var keys := Ascending(before.Keys);
    assert (keys + [index])[..|keys|] == keys;
    BlocksElsewhere(now, before, keys);
    var front := BlocksAt(now, keys);
    assert (front + [s.block])[..|front|] == front;
  }

  // Blocks come one after another, each with a larger index than the last; `open` is
  // the block being streamed. Anything else may come between.
  predicate Sequential(events: seq<Event>, open: Option<int>, last: int) {
    if events == [] then true
    else
      match events[0]
      case BlockStart(index, _) => open.None? && index > last && Sequential(events[1..], Some(index), index)
      case BlockDelta(index, _) => open == Some(index) && Sequential(events[1..], open, last)
      case BlockStop(index) => open == Some(index) && Sequential(events[1..], None, last)
      case _ => Sequential(events[1..], open, last)
  }

  ghost predicate StandsAt(st: State, open: Option<int>, last: int) {
    && (forall k | k in st.blocks :: k <= last)
    && (open.Some? ==> open.value == last && last in st.blocks)
  }

  lemma StartedText(st: State, index: int, b: StartBlock)
    ensures TextsOf(Emitted(st, BlockStart(index, b))) == Started(b).block.text
  {
    OneItemText(Emitted(st, BlockStart(index, b)));
  }

  lemma NewBlockText(blocks: map<int, BlockState>, index: int, s: BlockState)
    requires forall k | k in blocks :: k < index
    ensures AllText(blocks[index := s]) == AllText(blocks) + s.block.text
  {
    LastBlockText(blocks, index, s);
    assert blocks - {index} == blocks;
  }

  lemma StartConservesText(st: State, index: int, b: StartBlock)
    requires forall k | k in st.blocks :: k < index
    ensures AllText(After(st, BlockStart(index, b)).blocks)
         == AllText(st.blocks) + TextsOf(Emitted(st, BlockStart(index, b)))
  {
    NewBlockText(st.blocks, index, Started(b));
    StartedText(st, index, b);
  }

  lemma OneItemText(items: seq<Item>)
    requires |items| <= 1
    ensures TextsOf(items) == if items != [] && items[0].TextItem? then items[0].text else ""
  {
    if items != [] { assert items[1..] == []; }
  }

  lemma BlockConservesText(st: State, last: int, s: BlockState, text: string)
    requires last in st.blocks && (forall k | k in st.blocks :: k <= last)
          && s.block.text == st.blocks[last].block.text + text
    ensures AllText(st.blocks[last := s]) == AllText(st.blocks) + text
  {
    LastBlockText(st.blocks, last, s);
    LastBlockText(st.blocks, last, st.blocks[last]);
    assert st.blocks[last := st.blocks[last]] == st.blocks;
    Reassociate(AllText(st.blocks - {last}), st.blocks[last].block.text, text);
  }

  lemma EventConservesText(st: State, e: Event, open: Option<int>, last: int)
    requires StandsAt(st, open, last)
    requires e.BlockStart? ==> open.None? && e.index > last
    requires e.BlockDelta? || e.BlockStop? ==> open == Some(e.index)
    ensures AllText(After(st, e).blocks) == AllText(st.blocks) + TextsOf(Emitted(st, e))
  {
    OneItemText(Emitted(st, e));
    match e
    case BlockStart(index, b) => StartConservesText(st, index, b);
    case BlockDelta(index, d) =>
      var text := if d.TextDelta? then d.text else "";
      assert st.blocks[index].block.text + "" == st.blocks[index].block.text;
      BlockConservesText(st, last, Extended(st.blocks[index], d), text);
    case BlockStop(index) =>
      assert st.blocks[index].block.text + "" == st.blocks[index].block.text;
      BlockConservesText(st, last, Stopped(st.blocks[index]), "");
    case _ => assert AllText(st.blocks) + "" == AllText(st.blocks);
  }

  ghost predicate EndsWithText(items: seq<Item>, before: string) {
    items != [] && items[|items| - 1].Done? && before + TextsOf(items) == TextsIn(items[|items| - 1].blocks)
  }

  lemma StopShowsAllText(st: State, reason: Option<string>)
    ensures EndsWithText([Done(reason, FinalBlocks(st.blocks))], AllText(st.blocks))
  {
    var items := [Done(reason, FinalBlocks(st.blocks))];
    EmptyTextsSayNothing(BlocksAt(st.blocks, Ascending(st.blocks.Keys)));
    OneItemText(items);
    assert AllText(st.blocks) + "" == AllText(st.blocks);
  }

  lemma SameLast(all: seq<Item>, more: seq<Item>, items: seq<Item>)
    requires all == more + items && items != []
    ensures all != [] && all[|all| - 1] == items[|items| - 1]
  {
  }

  lemma MoreItemsBefore(items: seq<Item>, more: seq<Item>, before: string)
    requires EndsWithText(items, before + TextsOf(more))
    ensures EndsWithText(more + items, before)
  {
    TextsOfAppend(more, items);
    Reassociate(before, TextsOf(more), TextsOf(items));
    SameLast(more + items, more, items);
  }

  lemma {:induction false} RestConservesText(events: seq<Event>, st: State, open: Option<int>, last: int)
    requires Sequential(events, open, last) && StandsAt(st, open, last)
    requires Stream(events, st).error.None?
    ensures EndsWithText(Stream(events, st).items, AllText(st.blocks))
    decreases |events|
  {
    var e := events[0];
    if e.MessageStop? {
      StopShowsAllText(st, MapStopReason(st.stopReason));
    } else {
      var next := After(st, e);
      var openNext := if e.BlockStart? then Some(e.index) else if e.BlockStop? then None else open;
      EventConservesText(st, e, open, last);
      RestConservesText(events[1..], next, openNext, if e.BlockStart? then e.index else last);
      MoreItemsBefore(Stream(events[1..], next).items, Emitted(st, e), AllText(st.blocks));
    }
  }

  // A finished reply has streamed exactly the text of its final blocks.
  lemma SequentialRepliesConserveText(events: seq<Event>, first: int)
    requires Sequential(events, None, first) && Stream(events, INITIAL).error.None?
    ensures var items := Stream(events, INITIAL).items;
            items != [] && items[|items| - 1].Done? && TextsOf(items) == TextsIn(items[|items| - 1].blocks)
  {
    RestConservesText(events, INITIAL, None, first);
    assert AllText(map[]) == "";
    var items := Stream(events, INITIAL).items;
    assert "" + TextsOf(items) == TextsOf(items);
  }

  // --------------------------------------------------------------------
  // Tool arguments
  // --------------------------------------------------------------------

  // The argument fragments streamed for one index, in order.
  function ArgumentsOf(items: seq<Item>, index: int): string {
    if items == [] then ""
    else
      (if items[0].ToolCallDelta? && items[0].index == index then items[0].arguments else "")
      + ArgumentsOf(items[1..], index)
  }

  lemma {:induction false} ArgumentsAppend(a: seq<Item>, b: seq<Item>, index: int)
    ensures ArgumentsOf(a + b, index) == ArgumentsOf(a, index) + ArgumentsOf(b, index)
  {
    if a == [] {
      assert a + b == b;
    } else {
      assert (a + b)[1..] == a[1..] + b && (a + b)[0] == a[0];
      ArgumentsAppend(a[1..], b, index);
      Reassociate(if a[0].ToolCallDelta? && a[0].index == index then a[0].arguments else "",
                  ArgumentsOf(a[1..], index), ArgumentsOf(b, index));
    }
  }

  lemma OneItemArguments(items: seq<Item>, index: int)
    requires |items| <= 1
    ensures ArgumentsOf(items, index)
         == if items != [] && items[0].ToolCallDelta? && items[0].index == index then items[0].arguments else ""
  {
    if items != [] { assert items[1..] == []; }
  }

  function Fragment(e: Event, index: int): string {
    if e.BlockDelta? && e.index == index && e.delta.InputJsonDelta? then e.delta.partialJson else ""
  }

  // The JSON the stream sends for one index.
  function JsonOf(events: seq<Event>, index: int): string {
    if events == [] || EndsTheStream(events[0]) then ""
    else
      Fragment(events[0], index) + JsonOf(events[1..], index)
  }

  // Nothing more comes for a finished block; a block being streamed is stopped once
  // and not started again. Other blocks may come in between.
  predicate IsOver(events: seq<Event>, index: int) {
    if events == [] || EndsTheStream(events[0]) then true
    else
      var e := events[0];
      && !(e.BlockStart? && e.index == index) && !(e.BlockDelta? && e.index == index)
      && !(e.BlockStop? && e.index == index)
      && IsOver(events[1..], index)
  }

  predicate IsStreaming(events: seq<Event>, index: int) {
    if events == [] || EndsTheStream(events[0]) then false
    else
      var e := events[0];
      && !(e.BlockStart? && e.index == index)
      && if e.BlockStop? && e.index == index then IsOver(events[1..], index) else IsStreaming(events[1..], index)
  }

  // A tool block among the final blocks of `done`.
  predicate HasTool(last: Item, id: string, name: string, input: ToolInput) {
    last.Done? && exists c | c in last.blocks :: c.kind == ToolKind(id, name) && c.input == input
  }

  predicate HoldsTool(items: seq<Item>, id: string, name: string, input: ToolInput) {
    items != [] && HasTool(items[|items| - 1], id, name, input)
  }

  // What the fragments must add up to: the JSON, or "{}" after blank JSON.
  function Whole(json: string): string { if Trim(json) != "" then json else json + "{}" }

  lemma {:induction false} BlocksAtHas(blocks: map<int, BlockState>, keys: seq<int>, index: int)
    requires (forall k | k in keys :: k in blocks) && index in keys
    ensures blocks[index].block in BlocksAt(blocks, keys)
  {
    if keys[|keys| - 1] != index { BlocksAtHas(blocks, keys[..|keys| - 1], index); }
  }

  lemma {:induction false} ToolsAreKept(contents: seq<Content>, c: Content)
    requires c in contents && c.kind.ToolKind?
    ensures c in WithoutEmptyTexts(contents)
  {
    if contents[|contents| - 1] != c { ToolsAreKept(contents[..|contents| - 1], c); }
  }

  lemma FinalToolIsHeld(st: State, index: int, c: Content)
    requires index in st.blocks && st.blocks[index].block == c && c.kind.ToolKind?
    ensures c in FinalBlocks(st.blocks)
  {
    BlocksAtHas(st.blocks, Ascending(st.blocks.Keys), index);
    ToolsAreKept(BlocksAt(st.blocks, Ascending(st.blocks.Keys)), c);
  }

  // Events of other blocks leave this block and its fragments alone.
  lemma OtherEventsLeaveIt(st: State, e: Event, index: int)
    requires !EndsTheStream(e)
    requires !(e.BlockStart? && e.index == index) && !(e.BlockDelta? && e.index == index)
          && !(e.BlockStop? && e.index == index)
    ensures (index in After(st, e).blocks <==> index in st.blocks)
    ensures index in st.blocks ==> After(st, e).blocks[index] == st.blocks[index]
    ensures ArgumentsOf(Emitted(st, e), index) == ""
  {
    OneItemArguments(Emitted(st, e), index);
  }

  lemma StreamStep(events: seq<Event>, st: State, index: int)
    requires events != [] && !EndsTheStream(events[0])
    ensures var rest := Stream(events[1..], After(st, events[0]));
            && Stream(events, st).error == rest.error
            && ArgumentsOf(Stream(events, st).items, index)
               == ArgumentsOf(Emitted(st, events[0]), index) + ArgumentsOf(rest.items, index)
            && (rest.items != [] ==> Stream(events, st).items != [])
            && (rest.items != [] ==>
                  Stream(events, st).items[|Stream(events, st).items| - 1] == rest.items[|rest.items| - 1])
  {
    ArgumentsAppend(Emitted(st, events[0]), Stream(events[1..], After(st, events[0])).items, index);
  }

  lemma {:induction false} FinishedToolStays(events: seq<Event>, st: State, index: int, c: Content)
    requires IsOver(events, index) && Stream(events, st).error.None?
    requires index in st.blocks && st.blocks[index].block == c && c.kind.ToolKind?
    ensures ArgumentsOf(Stream(events, st).items, index) == ""
    ensures HoldsTool(Stream(events, st).items, c.kind.id, c.kind.name, c.input)
    decreases |events|
  {
    var e := events[0];
    if e.MessageStop? {
      FinalToolIsHeld(st, index, c);
      OneItemArguments(Stream(events, st).items, index);
    } else {
      OtherEventsLeaveIt(st, e, index);
      FinishedToolStays(events[1..], After(st, e), index, c);
      StreamStep(events, st, index);
    }
  }

  lemma StoppingATool(st: State, index: int, id: string, name: string)
    requires index in st.blocks && st.blocks[index].block.kind == ToolKind(id, name)
    ensures var json, after := st.blocks[index].json, After(st, BlockStop(index));
            && index in after.blocks && after.blocks[index].block.kind == ToolKind(id, name)
            && after.blocks[index].block.input == InputOf(json)
            && json + ArgumentsOf(Emitted(st, BlockStop(index)), index) == Whole(json)
  {
    OneItemArguments(Emitted(st, BlockStop(index)), index);
    var json := st.blocks[index].json;
    assert json + "" == json;
  }

  lemma ExtendingATool(st: State, index: int, d: Delta)
    requires index in st.blocks
    ensures var after, more := After(st, BlockDelta(index, d)), if d.InputJsonDelta? then d.partialJson else "";
            && index in after.blocks && after.blocks[index].block.kind == st.blocks[index].block.kind
            && after.blocks[index].json == st.blocks[index].json + more
            && ArgumentsOf(Emitted(st, BlockDelta(index, d)), index) == more
  {
    OneItemArguments(Emitted(st, BlockDelta(index, d)), index);
    assert st.blocks[index].json + "" == st.blocks[index].json;
  }

  lemma StoppedToolConserves(events: seq<Event>, st: State, index: int, id: string, name: string)
    requires events != [] && events[0] == BlockStop(index) && IsOver(events[1..], index)
          && Stream(events, st).error.None?
    requires index in st.blocks && st.blocks[index].block.kind == ToolKind(id, name)
    ensures var json := st.blocks[index].json;
            && json + ArgumentsOf(Stream(events, st).items, index) == Whole(json)
            && HoldsTool(Stream(events, st).items, id, name, InputOf(json))
    ensures JsonOf(events, index) == ""
  {
    var after, json := After(st, events[0]), st.blocks[index].json;
    StreamStep(events, st, index);
    StoppingATool(st, index, id, name);
    FinishedToolStays(events[1..], after, index, after.blocks[index].block);
    OverSendsNothing(events[1..], index);
    var fragment := ArgumentsOf(Emitted(st, events[0]), index);
    assert fragment + "" == fragment;
  }

  // One event of a block being streamed, or of another block.
  lemma OpenToolGoesOn(st: State, e: Event, index: int)
    requires index in st.blocks && !EndsTheStream(e) && !(e.BlockStart? && e.index == index)
          && !(e.BlockStop? && e.index == index)
    ensures var after, more := After(st, e), Fragment(e, index);
            && index in after.blocks && after.blocks[index].block.kind == st.blocks[index].block.kind
            && after.blocks[index].json == st.blocks[index].json + more
            && ArgumentsOf(Emitted(st, e), index) == more
  {
    if e.BlockDelta? && e.index == index {
      ExtendingATool(st, index, e.delta);
    } else {
      OtherEventsLeaveIt(st, e, index);
      assert st.blocks[index].json + "" == st.blocks[index].json;
    }
  }

  lemma {:induction false} OpenToolConserves(events: seq<Event>, st: State, index: int, id: string, name: string)
    requires IsStreaming(events, index) && Stream(events, st).error.None?
    requires index in st.blocks && st.blocks[index].block.kind == ToolKind(id, name)
    ensures var json := st.blocks[index].json;
            && json + ArgumentsOf(Stream(events, st).items, index) == Whole(json + JsonOf(events, index))
            && HoldsTool(Stream(events, st).items, id, name, InputOf(json + JsonOf(events, index)))
    decreases |events|
  {
    var e, json := events[0], st.blocks[index].json;
    if e.BlockStop? && e.index == index {
      StoppedToolConserves(events, st, index, id, name);
      assert json + "" == json;
    } else {
      var next := After(st, e);
      var more := ArgumentsOf(Emitted(st, e), index);
      StreamStep(events, st, index);
      OpenToolGoesOn(st, e, index);
      OpenToolConserves(events[1..], next, index, id, name);
      Reassociate(json, more, ArgumentsOf(Stream(events[1..], next).items, index));
      Reassociate(json, more, JsonOf(events[1..], index));
    }
  }

  lemma {:induction false} OverSendsNothing(events: seq<Event>, index: int)
    requires IsOver(events, index)
    ensures JsonOf(events, index) == ""
  {
    if events != [] && !EndsTheStream(events[0]) { OverSendsNothing(events[1..], index); }
  }

  lemma StartedToolConserves(events: seq<Event>, st: State, index: int, id: string, name: string)
    requires events != [] && events[0] == BlockStart(index, StartTool(id, name)) && IsStreaming(events[1..], index)
    requires Stream(events, st).error.None?
    ensures ArgumentsOf(Stream(events, st).items, index) == Whole(JsonOf(events[1..], index))
    ensures HoldsTool(Stream(events, st).items, id, name, InputOf(JsonOf(events[1..], index)))
  {
    var e, later := events[0], events[1..];
    var rest := Stream(later, After(st, e)).items;
    StreamStep(events, st, index);
    StartSendsNothing(st, index, id, name);
    StartedToolIsEmpty(st, index, id, name);
    OpenToolConserves(later, After(st, e), index, id, name);
    assert "" + JsonOf(later, index) == JsonOf(later, index);
    assert "" + ArgumentsOf(rest, index) == ArgumentsOf(rest, index);
  }

  lemma StartSendsNothing(st: State, index: int, id: string, name: string)
    ensures ArgumentsOf(Emitted(st, BlockStart(index, StartTool(id, name))), index) == ""
  {
    OneItemArguments(Emitted(st, BlockStart(index, StartTool(id, name))), index);
  }

  lemma StartedToolIsEmpty(st: State, index: int, id: string, name: string)
    ensures var after := After(st, BlockStart(index, StartTool(id, name)));
            && index in after.blocks && after.blocks[index].block.kind == ToolKind(id, name)
            && after.blocks[index].json == ""
  {
  }

  predicate Concerns(e: Event, index: int) {
    (e.BlockStart? || e.BlockDelta? || e.BlockStop?) && e.index == index
  }

  lemma OtherBlocksGoFirst(events: seq<Event>, st: State, index: int)
    requires events != [] && !EndsTheStream(events[0]) && !Concerns(events[0], index)
    ensures var rest := Stream(events[1..], After(st, events[0]));
            && Stream(events, st).error == rest.error
            && ArgumentsOf(Stream(events, st).items, index) == ArgumentsOf(rest.items, index)
            && forall id, name, input ::
                 HoldsTool(rest.items, id, name, input) ==> HoldsTool(Stream(events, st).items, id, name, input)
  {
    var rest := Stream(events[1..], After(st, events[0])).items;
    StreamStep(events, st, index);
    OtherEventsLeaveIt(st, events[0], index);
    assert "" + ArgumentsOf(rest, index) == ArgumentsOf(rest, index);
  }

  // However other blocks interleave with it, a tool block that is started (at event
  // n), streamed and stopped once has fragments that add up to the JSON sent for it
  // ("{}" when that is blank), and ends up with the input that JSON stands for.
  lemma {:induction false} ToolCallsConserveTheirJson(events: seq<Event>, st: State, n: nat, index: int, id: string,
                                                      name: string)
    requires n < |events| && events[n] == BlockStart(index, StartTool(id, name)) && IsStreaming(events[n + 1..], index)
    requires forall j | 0 <= j < n :: !EndsTheStream(events[j]) && !Concerns(events[j], index)
    requires Stream(events, st).error.None?
    ensures ArgumentsOf(Stream(events, st).items, index) == Whole(JsonOf(events[n + 1..], index))
    ensures HoldsTool(Stream(events, st).items, id, name, InputOf(JsonOf(events[n + 1..], index)))
    decreases n
  {
    if n == 0 {
      StartedToolConserves(events, st, index, id, name);
    } else {
      var rest := events[1..];
      assert rest[n..] == events[n + 1..] && rest[n - 1] == events[n];
      assert forall j | 0 <= j < n - 1 :: rest[j] == events[j + 1];
      OtherBlocksGoFirst(events, st, index);
      ToolCallsConserveTheirJson(rest, After(st, events[0]), n - 1, index, id, name);
    }
  }
}
