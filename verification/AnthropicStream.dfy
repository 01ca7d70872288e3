// The streamed reply of the Messages API: parseAnthropicStream of
// apps/api/src/ai/anthropic-messages.ts. Events come with their JSON already parsed.
module AnthropicStream {
  import opened Basics
  import opened Text
  import opened AnthropicMessages

  // A block of another kind is its JSON without the thinking and signature properties.
  datatype StartBlock =
    | StartTool(id: string, name: string)
    | StartText(text: string)
    | StartOther(json: string, thinking: string, signature: string)

  datatype Delta =
    | TextDelta(text: string)
    | InputJsonDelta(partialJson: string)
    | ThinkingDelta(thinking: string)
    | SignatureDelta(signature: string)
    | OtherDelta

  // One frame; NullFrame is one whose JSON is null where a property of it is read.
  datatype Event =
    | NotJson
    | BlockStart(index: int, block: StartBlock)
    | BlockDelta(index: int, delta: Delta)
    | BlockStop(index: int)
    | MessageDelta(stopReason: Option<string>)
    | ErrorEvent(errorType: Option<string>)
    | NullFrame
    | MessageStop
    | OtherEvent

  datatype Kind = ToolKind(id: string, name: string) | TextKind | OtherKind(json: string)

  // A content block as it is put together; a missing text property is the empty text.
  datatype Content = Content(kind: Kind, text: string, thinking: string, signature: string, input: ToolInput)

  datatype BlockState = BlockState(block: Content, json: string)

  datatype Item =
    | TextItem(text: string)
    | ToolCallDelta(index: int, id: Option<string>, name: Option<string>, arguments: string)
    | Done(finishReason: Option<string>, blocks: seq<Content>)

  function MapStopReason(stop: Option<string>): Option<string> {
    match stop
    case None => None
    case Some(reason) =>
      if reason in {"end_turn", "stop_sequence", "pause_turn"} then Some("stop")
      else if reason == "tool_use" then Some("tool_calls")
      else if reason in {"max_tokens", "model_context_window_exceeded"} then Some("length")
      else if reason == "refusal" then Some("refusal")
      else Some("stop")
  }

  // /^[a-z_]{1,40}$/
  predicate IsErrorName(s: string) { 1 <= |s| <= 40 && forall k | 0 <= k < |s| :: 'a' <= s[k] <= 'z' || s[k] == '_' }

  function ErrorName(errorType: Option<string>): string {
    if errorType.Some? && IsErrorName(errorType.value) then errorType.value else "unknown_error"
  }

  // --------------------------------------------------------------------
  // Blocks in index order
  // --------------------------------------------------------------------

  lemma HasLargest(s: set<int>) returns (m: int)
    requires |s| > 0
    ensures m in s && forall k | k in s :: k <= m
  {
    assert (forall x :: x !in s) ==> s == {};
    m :| m in s;
    var rest := s - {m};
    if rest != {} {
      var largest := HasLargest(rest);
      assert forall k | k in s :: k == m || k in rest;
      if largest > m { m := largest; }
    } else {
      assert forall k | k in s :: k == m || k in rest;
    }
  }

  lemma LargestExists(s: set<int>)
    requires |s| > 0
    ensures exists m :: m in s && forall k | k in s :: k <= m
  {
    var m := HasLargest(s);
  }

  function Largest(s: set<int>): (m: int)
    requires |s| > 0
    ensures m in s && forall k | k in s :: k <= m
  {
    LargestExists(s);
    var m :| m in s && forall k | k in s :: k <= m;
    m
  }

  // [...entries].sort(([a], [b]) => a - b)
  function Ascending(s: set<int>): (keys: seq<int>)
    ensures forall k :: k in keys <==> k in s
  {
    if |s| == 0 then [] else Ascending(s - {Largest(s)}) + [Largest(s)]
  }

  function BlocksAt(blocks: map<int, BlockState>, keys: seq<int>): seq<Content>
    requires forall k | k in keys :: k in blocks
  {
    if keys == [] then []
    else
      var last := keys[|keys| - 1];
      assert last in keys;
      BlocksAt(blocks, keys[..|keys| - 1]) + [blocks[last].block]
  }

  predicate IsEmptyText(c: Content) { c.kind.TextKind? && c.text == "" }

  function WithoutEmptyTexts(contents: seq<Content>): seq<Content> {
    if contents == [] then []
    else
      var last := contents[|contents| - 1];
      WithoutEmptyTexts(contents[..|contents| - 1]) + if IsEmptyText(last) then [] else [last]
  }

  function FinalBlocks(blocks: map<int, BlockState>): seq<Content> {
    WithoutEmptyTexts(BlocksAt(blocks, Ascending(blocks.Keys)))
  }

  // --------------------------------------------------------------------
  // One event
  // --------------------------------------------------------------------

  datatype State = State(blocks: map<int, BlockState>, stopReason: Option<string>)

  function Started(b: StartBlock): BlockState {
    match b
    case StartTool(id, name) => BlockState(Content(ToolKind(id, name), "", "", "", EmptyInput), "")
    case StartText(text) => BlockState(Content(TextKind, text, "", "", EmptyInput), "")
    case StartOther(json, thinking, signature) =>
      BlockState(Content(OtherKind(json), "", thinking, signature, EmptyInput), "")
  }

  function Extended(s: BlockState, d: Delta): BlockState {
    match d
    case TextDelta(text) => s.(block := s.block.(text := s.block.text + text))
    case InputJsonDelta(partial) => s.(json := s.json + partial)
    case ThinkingDelta(thinking) => s.(block := s.block.(thinking := s.block.thinking + thinking))
    case SignatureDelta(signature) => s.(block := s.block.(signature := s.block.signature + signature))
    case OtherDelta => s
  }

  // A tool with no parameters streams no JSON at all.
  function InputOf(raw: string): ToolInput { if Trim(raw) != "" then ParsedFrom(raw) else EmptyInput }

  function Stopped(s: BlockState): BlockState {
    if s.block.kind.ToolKind? then s.(block := s.block.(input := InputOf(s.json))) else s
  }

  function After(st: State, e: Event): State {
    match e
    case BlockStart(index, b) => st.(blocks := st.blocks[index := Started(b)])
    case BlockDelta(index, d) =>
      if index in st.blocks then st.(blocks := st.blocks[index := Extended(st.blocks[index], d)]) else st
    case BlockStop(index) =>
      if index in st.blocks then st.(blocks := st.blocks[index := Stopped(st.blocks[index])]) else st
    case MessageDelta(stop) => if stop.Some? && stop.value != "" then st.(stopReason := stop) else st
    case _ => st
  }

  function Emitted(st: State, e: Event): seq<Item> {
    match e
    case BlockStart(index, StartTool(id, name)) => [ToolCallDelta(index, Some(id), Some(name), "")]
    case BlockStart(_, StartText(text)) => if text != "" then [TextItem(text)] else []
    case BlockDelta(index, TextDelta(text)) => if index in st.blocks then [TextItem(text)] else []
    case BlockDelta(index, InputJsonDelta(partial)) =>
      if index in st.blocks && partial != "" then [ToolCallDelta(index, None, None, partial)] else []
    case BlockStop(index) =>
      if index in st.blocks && st.blocks[index].block.kind.ToolKind? && Trim(st.blocks[index].json) == ""
      then [ToolCallDelta(index, None, None, "{}")] else []
    case _ => []
  }

  // --------------------------------------------------------------------
  // The whole stream
  // --------------------------------------------------------------------

  // The stream's own error with its name, or the one that reading null throws.
  datatype Failure = StreamError(name: string) | TypeError

  // What is yielded, and the error that ends the stream; None after `done`.
  datatype Outcome = Outcome(items: seq<Item>, error: Option<Failure>)

  function Stream(events: seq<Event>, st: State): Outcome {
    if events == [] then Outcome([], Some(StreamError("stream_interrupted")))
    else if events[0].ErrorEvent? then Outcome([], Some(StreamError(ErrorName(events[0].errorType))))
    else if events[0].NullFrame? then Outcome([], Some(TypeError))
    else if events[0].MessageStop? then Outcome([Done(MapStopReason(st.stopReason), FinalBlocks(st.blocks))], None)
    else
      var rest := Stream(events[1..], After(st, events[0]));
      rest.(items := Emitted(st, events[0]) + rest.items)
  }

  const INITIAL: State := State(map[], None)

  method StartEvent(blocks: map<int, BlockState>, index: int, b: StartBlock)
    returns (r: map<int, BlockState>, items: seq<Item>)
    ensures forall stop :: After(State(blocks, stop), BlockStart(index, b)) == State(r, stop)
    ensures forall stop :: Emitted(State(blocks, stop), BlockStart(index, b)) == items
  {
    r, items := blocks[index := Started(b)], [];
    match b
    case StartTool(id, name) => items := [ToolCallDelta(index, Some(id), Some(name), "")];
    case StartText(text) => if text != "" { items := [TextItem(text)]; }
    case StartOther(_, _, _) =>
  }

  method DeltaEvent(blocks: map<int, BlockState>, index: int, d: Delta)
    returns (r: map<int, BlockState>, items: seq<Item>)
    ensures forall stop :: After(State(blocks, stop), BlockDelta(index, d)) == State(r, stop)
    ensures forall stop :: Emitted(State(blocks, stop), BlockDelta(index, d)) == items
  {
    r, items := blocks, [];
    if index !in blocks { return; }
    var s := blocks[index];
    match d {
    case TextDelta(text) =>
      s := s.(block := s.block.(text := s.block.text + text));
      items := [TextItem(text)];
    case InputJsonDelta(partial) =>
      s := s.(json := s.json + partial);
      if partial != "" { items := [ToolCallDelta(index, None, None, partial)]; }
    case ThinkingDelta(thinking) =>
      s := s.(block := s.block.(thinking := s.block.thinking + thinking));
    case SignatureDelta(signature) =>
      s := s.(block := s.block.(signature := s.block.signature + signature));
    case OtherDelta =>
    }
    r := blocks[index := s];
  }

  method StopEvent(blocks: map<int, BlockState>, index: int) returns (r: map<int, BlockState>, items: seq<Item>)
    ensures forall stop :: After(State(blocks, stop), BlockStop(index)) == State(r, stop)
    ensures forall stop :: Emitted(State(blocks, stop), BlockStop(index)) == items
  {
    r, items := blocks, [];
    if index in blocks {
      var s := blocks[index];
      if s.block.kind.ToolKind? {
        var raw := s.json;
        if Trim(raw) == "" { items := [ToolCallDelta(index, None, None, "{}")]; }
        r := blocks[index := s.(block := s.block.(input := if Trim(raw) != "" then ParsedFrom(raw) else EmptyInput))];
      } else {
        assert blocks[index := s] == blocks;
      }
    }
  }

  method ParseAnthropicStream(events: seq<Event>) returns (items: seq<Item>, error: Option<Failure>)
    ensures Outcome(items, error) == Stream(events, INITIAL)
  {
    var blocks: map<int, BlockState> := map[];
    var stopReason: Option<string> := None;
    items := [];
    assert events[0..] == events;
    for n := 0 to |events|
      invariant Stream(events, INITIAL) == Prefixed(items, Stream(events[n..], State(blocks, stopReason)))
    {
      var e := events[n];
      assert events[n..][1..] == events[n + 1..];
      if e.ErrorEvent? { return items, Some(StreamError(ErrorName(e.errorType))); }
      if e.NullFrame? { return items, Some(TypeError); }
      if e.MessageStop? { return items + [Done(MapStopReason(stopReason), FinalBlocks(blocks))], None; }
      ghost var st := State(blocks, stopReason);
      var more: seq<Item> := [];
      match e {
      case BlockStart(index, b) => blocks, more := StartEvent(blocks, index, b);
      case BlockDelta(index, d) => blocks, more := DeltaEvent(blocks, index, d);
      case BlockStop(index) => blocks, more := StopEvent(blocks, index);
      case MessageDelta(stop) => if stop.Some? && stop.value != "" { stopReason := stop; }
      case _ =>
      }
      assert After(st, e) == State(blocks, stopReason) && Emitted(st, e) == more;
      PrefixedTwice(items, more, Stream(events[n + 1..], State(blocks, stopReason)));
      items := items + more;
    }
    error := Some(StreamError("stream_interrupted"));
  }

  function Prefixed(items: seq<Item>, o: Outcome): Outcome { o.(items := items + o.items) }

  lemma PrefixedTwice(a: seq<Item>, b: seq<Item>, o: Outcome)
    ensures Prefixed(a, Prefixed(b, o)) == Prefixed(a + b, o)
  {
    Reassociate(a, b, o.items);
  }
}
