// Chat history as a Messages request: toAnthropicMessages of
// apps/api/src/ai/anthropic-messages.ts.
module AnthropicMessages {
  import opened Basics
  import opened Text

  // A tool input: the object JSON.parse gives for `raw`, or the empty object when it
  // gives none.
  datatype ToolInput = EmptyInput | ParsedFrom(raw: string)

  datatype Block =
    | TextBlock(text: string)
    | ToolUse(id: string, name: string, input: ToolInput)
    | ToolResult(toolUseId: string, content: string)
    | ProviderBlock(json: string)

  datatype ToolCall = ToolCall(id: string, name: string, arguments: string)

  // The role names the source tells apart; any other speaks for the user.
  datatype ChatRole = System | Tool | Assistant | Plain(name: string)

  datatype ChatMessage = ChatMessage(
    role: ChatRole,
    content: Option<string>,
    toolCalls: seq<ToolCall>,
    toolCallId: Option<string>,
    providerBlocks: seq<Block>
  )

  datatype Role = UserRole | AssistantRole

  datatype Message = Message(role: Role, content: seq<Block>)

  datatype SystemBlock = SystemBlock(text: string, cached: bool)

  // content && content.trim()
  predicate HasText(content: Option<string>) { content.Some? && Trim(content.value) != "" }

  function CallBlocks(calls: seq<ToolCall>): (blocks: seq<Block>)
    ensures |blocks| == |calls|
  {
    seq(|calls|, k requires 0 <= k < |calls| => ToolUse(calls[k].id, calls[k].name, ParsedFrom(calls[k].arguments)))
  }

  // The side a message speaks for and the blocks it stands for.
  function SideOf(m: ChatMessage): Role { if m.role.Assistant? then AssistantRole else UserRole }

  function BlocksOf(m: ChatMessage): seq<Block> {
    if m.role.System? then []
    else if m.role.Tool? then
      [ToolResult(if m.toolCallId.Some? then m.toolCallId.value else "",
                  if m.content.Some? && m.content.value != "" then m.content.value else "(empty result)")]
    else if m.role.Assistant? && m.providerBlocks != [] then m.providerBlocks
    else
      var text := if HasText(m.content) then [TextBlock(m.content.value)] else [];
      text + if m.role.Assistant? then CallBlocks(m.toolCalls) else []
  }

  // --------------------------------------------------------------------
  // What a request must be
  // --------------------------------------------------------------------

  predicate Alternates(messages: seq<Message>) {
    forall k | 0 <= k < |messages| - 1 :: messages[k].role != messages[k + 1].role
  }

  predicate NoneEmpty(messages: seq<Message>) { forall k | 0 <= k < |messages| :: messages[k].content != [] }

  // Every block with the role that speaks it, in order.
  function Tagged(role: Role, blocks: seq<Block>): (t: seq<(Role, Block)>)
    ensures |t| == |blocks|
  {
    seq(|blocks|, k requires 0 <= k < |blocks| => (role, blocks[k]))
  }

  function Spoken(messages: seq<Message>): seq<(Role, Block)> {
    if messages == [] then []
    else Spoken(messages[..|messages| - 1]) + Tagged(messages[|messages| - 1].role, messages[|messages| - 1].content)
  }

  function SpokenIn(history: seq<ChatMessage>): seq<(Role, Block)> {
    if history == [] then []
    else SpokenIn(history[..|history| - 1]) + Tagged(SideOf(history[|history| - 1]), BlocksOf(history[|history| - 1]))
  }

  // --------------------------------------------------------------------
  // The conversion
  // --------------------------------------------------------------------

  // The source's inner `push`: merge into the last message of the same role.
  method Push(messages: seq<Message>, role: Role, blocks: seq<Block>) returns (r: seq<Message>)
    requires Alternates(messages) && NoneEmpty(messages)
    ensures Alternates(r) && NoneEmpty(r) && Spoken(r) == Spoken(messages) + Tagged(role, blocks)
  {
    if |blocks| == 0 { return messages; }
    if |messages| > 0 && messages[|messages| - 1].role == role {
      var last := messages[|messages| - 1];
      r := messages[|messages| - 1 := last.(content := last.content + blocks)];
      SpokenExtend(messages, blocks, r);
      ExtendKeepsShape(messages, blocks, r);
    } else {
      r := messages + [Message(role, blocks)];
      SpokenAppend(messages, Message(role, blocks));
      AppendKeepsShape(messages, Message(role, blocks));
    }
  }

  lemma ExtendKeepsShape(messages: seq<Message>, blocks: seq<Block>, r: seq<Message>)
    requires messages != [] && Alternates(messages) && NoneEmpty(messages)
    requires var n := |messages| - 1;
             r == messages[n := messages[n].(content := messages[n].content + blocks)]
    ensures Alternates(r) && NoneEmpty(r)
  {
    assert forall k | 0 <= k < |messages| :: r[k].role == messages[k].role;
  }

  lemma AppendKeepsShape(messages: seq<Message>, m: Message)
    requires Alternates(messages) && NoneEmpty(messages) && m.content != []
    requires messages == [] || messages[|messages| - 1].role != m.role
    ensures Alternates(messages + [m]) && NoneEmpty(messages + [m])
  {
  }

  lemma SpokenAppend(messages: seq<Message>, m: Message)
    ensures Spoken(messages + [m]) == Spoken(messages) + Tagged(m.role, m.content)
  {
    assert (messages + [m])[..|messages|] == messages;
  }

  lemma SpokenExtend(messages: seq<Message>, blocks: seq<Block>, r: seq<Message>)
    requires messages != []
    requires var n := |messages| - 1;
             r == messages[n := messages[n].(content := messages[n].content + blocks)]
    ensures Spoken(r) == Spoken(messages) + Tagged(messages[|messages| - 1].role, blocks)
  {
    var n, last := |messages| - 1, messages[|messages| - 1];
    assert r[..n] == messages[..n];
    assert Tagged(last.role, last.content + blocks) == Tagged(last.role, last.content) + Tagged(last.role, blocks);
    Reassociate(Spoken(messages[..n]), Tagged(last.role, last.content), Tagged(last.role, blocks));
  }

  function SystemText(m: ChatMessage): seq<string> {
    if m.role.System? && m.content.Some? && m.content.value != "" then [m.content.value] else []
  }

  function SystemTexts(history: seq<ChatMessage>): seq<string> {
    if history == [] then [] else SystemTexts(history[..|history| - 1]) + SystemText(history[|history| - 1])
  }

  lemma OneMoreMessage(history: seq<ChatMessage>, n: nat)
    requires n < |history|
    ensures SpokenIn(history[..n + 1]) == SpokenIn(history[..n]) + Tagged(SideOf(history[n]), BlocksOf(history[n]))
    ensures SystemTexts(history[..n + 1]) == SystemTexts(history[..n]) + SystemText(history[n])
  {
    var h := history[..n + 1];
    assert h[..n] == history[..n] && h[n] == history[n];
  }

  lemma SystemOrSpoken(m: ChatMessage)
    ensures m.role.System? ==> Tagged(SideOf(m), BlocksOf(m)) == []
    ensures !m.role.System? ==> SystemText(m) == []
  {
  }

  predicate AreSystem(system: seq<SystemBlock>, texts: seq<string>) {
    |system| == |texts| && forall k | 0 <= k < |system| :: system[k] == SystemBlock(texts[k], false)
  }

  // What a message becomes: a tool's result always has a content; provider blocks are
  // replayed unchanged and stand for the whole turn; any other turn is its text as
  // written, unless that is blank, followed for the assistant by one tool use for each
  // call, with the call's id, name and arguments, in order. System text goes to the
  // system blocks only.
  lemma EachMessageSpeaks(m: ChatMessage)
    ensures m.role == System ==> BlocksOf(m) == []
    ensures SystemText(m) == if m.role == System && m.content !in {None, Some("")} then [m.content.value] else []
    ensures m.role == Tool ==>
      && |BlocksOf(m)| == 1 && BlocksOf(m)[0].ToolResult? && BlocksOf(m)[0].content != ""
      && m.toolCallId in {Some(BlocksOf(m)[0].toolUseId), None}
      && (m.toolCallId.None? ==> BlocksOf(m)[0].toolUseId == "")
      && (m.content == Some(BlocksOf(m)[0].content)
          || (m.content in {None, Some("")} && BlocksOf(m)[0].content == "(empty result)"))
    ensures m.role == Assistant && m.providerBlocks != [] ==> BlocksOf(m) == m.providerBlocks
    ensures m.role.Plain? || (m.role == Assistant && m.providerBlocks == []) ==>
      var blank := m.content.None? || Trim(m.content.value) == "";
      var text, calls := if blank then 0 else 1, if m.role == Assistant then |m.toolCalls| else 0;
      && |BlocksOf(m)| == text + calls && (!blank ==> BlocksOf(m)[0] == TextBlock(m.content.value))
      && forall k | 0 <= k < calls ::
           BlocksOf(m)[text + k]
           == ToolUse(m.toolCalls[k].id, m.toolCalls[k].name, ParsedFrom(m.toolCalls[k].arguments))
    ensures SideOf(m) == AssistantRole <==> m.role == Assistant
  {
  }

  // One round of the loop.
  method TakeMessage(m: ChatMessage, system: seq<SystemBlock>, ghost texts: seq<string>, messages: seq<Message>)
    returns (s: seq<SystemBlock>, r: seq<Message>)
    requires AreSystem(system, texts) && Alternates(messages) && NoneEmpty(messages)
    ensures AreSystem(s, texts + SystemText(m)) && Alternates(r) && NoneEmpty(r)
    ensures Spoken(r) == Spoken(messages) + Tagged(SideOf(m), BlocksOf(m))
  {
    SystemOrSpoken(m);
    s, r := system, messages;
    if m.role.System? {
      if m.content.Some? && m.content.value != "" { s := s + [SystemBlock(m.content.value, false)]; }
    } else {
      r := Push(messages, SideOf(m), BlocksOf(m));
    }
  }

  // The last system block carries the cache marker.
  method MarkLast(system: seq<SystemBlock>, ghost texts: seq<string>) returns (s: seq<SystemBlock>)
    requires AreSystem(system, texts)
    ensures |s| == |texts| && forall k | 0 <= k < |s| :: s[k] == SystemBlock(texts[k], k == |s| - 1)
  {
    s := system;
    if |s| > 0 { s := s[|s| - 1 := s[|s| - 1].(cached := true)]; }
  }

  // Strict alternation, no empty message, and every block kept with its role and in
  // order; the last system block, and only it, carries the cache marker.
  method ToAnthropicMessages(history: seq<ChatMessage>) returns (system: seq<SystemBlock>, messages: seq<Message>)
    ensures Alternates(messages) && NoneEmpty(messages) && Spoken(messages) == SpokenIn(history)
    ensures |system| == |SystemTexts(history)|
    ensures forall k | 0 <= k < |system| :: system[k] == SystemBlock(SystemTexts(history)[k], k == |system| - 1)
  {
    system, messages := [], [];
    for n := 0 to |history|
      invariant Alternates(messages) && NoneEmpty(messages) && Spoken(messages) == SpokenIn(history[..n])
      invariant AreSystem(system, SystemTexts(history[..n]))
    {
      OneMoreMessage(history, n);
      system, messages := TakeMessage(history[n], system, SystemTexts(history[..n]), messages);
    }
    assert history[..|history|] == history;
    system := MarkLast(system, SystemTexts(history));
  }

  // --------------------------------------------------------------------
  // The three promises leave one possible request
  // --------------------------------------------------------------------

  lemma LastSpoken(messages: seq<Message>)
    requires messages != [] && NoneEmpty(messages)
    ensures var last := messages[|messages| - 1];
            && Spoken(messages) != []
            && Spoken(messages)[|Spoken(messages)| - 1] == (last.role, last.content[|last.content| - 1])
  {
  }

  // A block inside the last message, and the block before the last message.
  lemma SpokenAt(messages: seq<Message>, k: nat)
    requires messages != [] && NoneEmpty(messages) && Alternates(messages) && k < |Spoken(messages)|
    ensures var last, n := messages[|messages| - 1], |Spoken(messages)| - |messages[|messages| - 1].content|;
            && 0 <= n && (k >= n ==> Spoken(messages)[k].0 == last.role)
            && (k == n - 1 ==> Spoken(messages)[k].0 != last.role)
            && (n > 0 ==> |messages| > 1)
  {
    var m := |messages| - 1;
    var front := Spoken(messages[..m]);
    if k < |front| {
      assert Spoken(messages)[k] == front[k];
      if k == |front| - 1 { LastSpoken(messages[..m]); }
    } else {
      assert Spoken(messages)[k] == Tagged(messages[m].role, messages[m].content)[k - |front|];
    }
  }

  // The blocks of the last message are the longest tail that one role speaks.
  lemma LastMessageLength(a: seq<Message>, b: seq<Message>)
    requires a != [] && b != [] && Alternates(a) && Alternates(b) && NoneEmpty(a) && NoneEmpty(b)
          && Spoken(a) == Spoken(b)
    ensures |a[|a| - 1].content| <= |b[|b| - 1].content|
  {
    var end := |Spoken(a)|;
    var k := end - |b[|b| - 1].content|;
    LastSpoken(a);
    SpokenAt(a, end - 1);
    SpokenAt(b, end - 1);
    if k > 0 {
      SpokenAt(a, k - 1);
      SpokenAt(b, k - 1);
    }
  }

  lemma TaggedCancels(r: Role, a: seq<Block>, s: Role, b: seq<Block>)
    requires Tagged(r, a) == Tagged(s, b) && a != []
    ensures r == s && a == b
  {
    var p, q := Tagged(r, a), Tagged(s, b);
    assert |a| == |b| && p[0].0 == q[0].0;
    assert forall k | 0 <= k < |a| :: p[k].1 == a[k] && q[k].1 == b[k];
  }

  lemma SplitSpoken(a: seq<Message>, b: seq<Message>)
    requires a != [] && b != [] && Spoken(a) == Spoken(b)
    requires |a[|a| - 1].content| == |b[|b| - 1].content| && a[|a| - 1].content != []
    ensures a[|a| - 1] == b[|b| - 1] && Spoken(a[..|a| - 1]) == Spoken(b[..|b| - 1])
  {
    var x, y := a[|a| - 1], b[|b| - 1];
    Cut(Spoken(a), Spoken(a[..|a| - 1]), Tagged(x.role, x.content));
    Cut(Spoken(b), Spoken(b[..|b| - 1]), Tagged(y.role, y.content));
    TaggedCancels(x.role, x.content, y.role, y.content);
  }

  // Two requests that alternate, hold no empty message and speak the same blocks are
  // the same request.
  lemma {:induction false} RequestIsDetermined(a: seq<Message>, b: seq<Message>)
    requires Alternates(a) && Alternates(b) && NoneEmpty(a) && NoneEmpty(b) && Spoken(a) == Spoken(b)
    ensures a == b
    decreases |a|
  {
    if a == [] || b == [] {
      if a != [] { LastSpoken(a); }
      if b != [] { LastSpoken(b); }
    } else {
      LastMessageLength(a, b);
      LastMessageLength(b, a);
      SplitSpoken(a, b);
      RequestIsDetermined(a[..|a| - 1], b[..|b| - 1]);
      assert a == a[..|a| - 1] + [a[|a| - 1]] && b == b[..|b| - 1] + [b[|b| - 1]];
    }
  }
}
