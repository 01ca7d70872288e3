// A line-at-a-time reading of an event stream, after "Interpreting an event
// stream" (section 9.2.6 of the WHATWG HTML Standard) for the event and data
// fields, and how the parser's blocks compare with it.
module SseReference {
  import opened Basics
  import opened Text
  import opened Sse

  // The event type buffer (None until an event field is seen) and the data buffer.
  datatype Buffers = Buffers(eventType: Option<string>, data: string)

  const FRESH: Buffers := Buffers(None, "")

  function LineEnd(s: string): (k: nat)
    ensures k <= |s| && forall j | 0 <= j < k :: s[j] != '\r' && s[j] != '\n'
    ensures k < |s| ==> s[k] == '\r' || s[k] == '\n'
  {
    if s == "" || s[0] == '\r' || s[0] == '\n' then 0 else 1 + LineEnd(s[1..])
  }

  // A line ends at CRLF, LF or CR.
  function AfterLine(s: string): string
    requires LineEnd(s) < |s|
  {
    var k := LineEnd(s);
    if s[k] == '\r' && k + 1 < |s| && s[k + 1] == '\n' then s[k + 2..] else s[k + 1..]
  }

  // A field's name stands before the first colon.
  function NameLength(line: string): (n: nat)
    ensures n <= |line| && forall k | 0 <= k < n :: line[k] != ':'
    ensures n < |line| ==> line[n] == ':'
  {
    if line == "" || line[0] == ':' then 0 else 1 + NameLength(line[1..])
  }

  function NameOf(line: string): string { line[..NameLength(line)] }

  // Its value stands behind the colon and one space, if there is one; without a colon
  // it is empty.
  function ValueOf(line: string): string {
    var n := NameLength(line);
    if n + 1 < |line| && line[n + 1] == ' ' then line[n + 2..]
    else if n < |line| then line[n + 1..]
    else ""
  }

  function Process(b: Buffers, line: string): Buffers
    requires line != ""
  {
    if line[0] == ':' then b
    else if NameOf(line) == "event" then b.(eventType := Some(ValueOf(line)))
    else if NameOf(line) == "data" then b.(data := b.data + ValueOf(line) + "\n")
    else b
  }

  // Nothing is dispatched with an empty data buffer; otherwise its last LF goes.
  function Dispatch(b: Buffers): seq<SseEvent> {
    if b.data == "" then [] else [SseEvent(b.eventType, b.data[..|b.data| - 1])]
  }

  // A blank line dispatches; what is pending at the end of the stream is dropped.
  function Interpret(s: string, b: Buffers): seq<SseEvent>
    decreases |s|
  {
    var k := LineEnd(s);
    if k == |s| then []
    else if k == 0 then Dispatch(b) + Interpret(AfterLine(s), FRESH)
    else Interpret(AfterLine(s), Process(b, s[..k]))
  }

  // --------------------------------------------------------------------
  // Line ends
  // --------------------------------------------------------------------

  lemma {:induction false} NormalizeCleanFront(a: string, b: string)
    requires NoCr(a)
    ensures Normalize(a + b) == a + Normalize(b)
  {
    if a == "" {
      assert a + b == b;
    } else {
      NormalizeCleanFront(a[1..], b);
      assert (a + b)[1..] == a[1..] + b;
    }
  }

  lemma NormalizeFirstLine(s: string, k: nat, after: string, n: string, m: string)
    requires k == LineEnd(s) && k < |s| && after == AfterLine(s) && n == Normalize(s) && m == Normalize(after)
    ensures n == s[..k] + "\n" + m
  {
    var line, t := s[..k], s[k..];
    NormalizeCleanFront(line, t);
    assert s == line + t;
    NormalizeBreak(t);
    BreakIsDropped(s, k, t);
    Reassociate(line, "\n", m);
  }

  lemma BreakIsDropped(s: string, k: nat, t: string)
    requires k == LineEnd(s) && k < |s| && t == s[k..]
    ensures AfterLine(s) == if t[0] == '\r' && |t| > 1 && t[1] == '\n' then t[2..] else t[1..]
  {
  }

  lemma NormalizeBreak(t: string)
    requires t != "" && (t[0] == '\n' || t[0] == '\r')
    ensures Normalize(t) == "\n" + Normalize(if t[0] == '\r' && |t| > 1 && t[1] == '\n' then t[2..] else t[1..])
  {
  }

  lemma LineEndAt(s: string, k: nat)
    requires k <= |s| && forall j | 0 <= j < k :: s[j] != '\r' && s[j] != '\n'
    requires k < |s| ==> s[k] == '\r' || s[k] == '\n'
    ensures LineEnd(s) == k
  {
    var e := LineEnd(s);
    assert e < |s| ==> s[e] == '\r' || s[e] == '\n';
  }

  lemma {:induction false} NormalizeKeepsMeaning(s: string, n: string, b: Buffers)
    requires n == Normalize(s)
    ensures Interpret(n, b) == Interpret(s, b)
    decreases |s|
  {
    var k := LineEnd(s);
    if k == |s| {
      NormalizeKeepsClean(s);
    } else {
      var after := AfterLine(s);
      NormalizeFirstLine(s, k, after, n, Normalize(after));
      NormalizeKeepsMeaning(after, Normalize(after), if k == 0 then FRESH else Process(b, s[..k]));
      LineThenRest(n, s[..k], Normalize(after), b);
      assert s[..k] == "" <==> k == 0;
    }
  }

  // One terminated line, then the rest.
  lemma LineThenRest(whole: string, line: string, rest: string, b: Buffers)
    requires NoCr(line) && LineEnd(line) == |line| && whole == line + "\n" + rest
    ensures Interpret(whole, b)
         == if line == "" then Dispatch(b) + Interpret(rest, FRESH) else Interpret(rest, Process(b, line))
  {
    var k := |line|;
    assert forall j | 0 <= j < k :: whole[j] == line[j] && line[j] != '\n';
    LineEndAt(whole, k);
    assert whole[..k] == line && whole[k] == '\n' && whole[k + 1..] == rest;
    assert AfterLine(whole) == rest;
  }

  // --------------------------------------------------------------------
  // Blocks
  // --------------------------------------------------------------------

  // Each line with its LF: what the data buffer accumulates.
  function Terminated(lines: seq<string>): string {
    if lines == [] then "" else Terminated(lines[..|lines| - 1]) + lines[|lines| - 1] + "\n"
  }

  lemma {:induction false} JoinAppend(lines: seq<string>, line: string)
    ensures Join(lines + [line], "\n") == if lines == [] then line else Join(lines, "\n") + "\n" + line
  {
    if |lines| > 1 {
      JoinAppend(lines[1..], line);
      assert (lines + [line])[1..] == lines[1..] + [line];
    } else if |lines| == 1 {
      assert (lines + [line])[1..] == [line];
    }
  }

  lemma {:induction false} TerminatedIsJoin(lines: seq<string>)
    requires lines != []
    ensures Terminated(lines) == Join(lines, "\n") + "\n"
  {
    var n := |lines| - 1;
    assert lines == lines[..n] + [lines[n]];
    JoinAppend(lines[..n], lines[n]);
    if n > 0 { TerminatedIsJoin(lines[..n]); }
  }

  // A line as it is written: a name alone, or a name, a colon, at most one space that
  // does not count, and the value.
  ghost predicate IsWritten(line: string, name: string, value: string) {
    && Lacks(name, ':')
    && (|| (line == name && value == "")
        || line == name + ": " + value
        || (line == name + ":" + value && !(value != "" && value[0] == ' ')))
  }

  lemma NameLengthIs(line: string, n: nat)
    requires n <= |line| && (forall k | 0 <= k < n :: line[k] != ':') && (n < |line| ==> line[n] == ':')
    ensures NameLength(line) == n
  {
    var m := NameLength(line);
    assert m < |line| ==> line[m] == ':';
  }

  // The standard's reading of a line, and the parser's, give the name and the value
  // that were written; every line is written in exactly one such way.
  lemma LineIsReadExactly(line: string, name: string, value: string)
    ensures IsWritten(line, name, value) <==> NameOf(line) == name && ValueOf(line) == value
    ensures Field(line) == NameOf(line) && FieldValue(line) == ValueOf(line)
  {
    if IsWritten(line, name, value) {
      assert forall k | 0 <= k < |name| :: line[k] == name[k];
      NameLengthIs(line, |name|);
      if |name| < |line| {
        assert line[..|name|] == name;
        if line == name + ": " + value { assert line[|name| + 1] == ' ' && line[|name| + 2..] == value; }
        else { assert line[|name| + 1..] == value; }
      }
    }
    NameAndValueAreWritten(line);
    ParserReadsTheLine(line);
  }

  lemma NameAndValueAreWritten(line: string)
    ensures IsWritten(line, NameOf(line), ValueOf(line))
  {
    var n, name, value := NameLength(line), NameOf(line), ValueOf(line);
    if n == |line| {
      assert name == line;
    } else if n + 1 < |line| && line[n + 1] == ' ' {
      assert line == name + ": " + value;
    } else {
      assert line == name + ":" + value;
    }
  }

  lemma ParserReadsTheLine(line: string)
    ensures Field(line) == NameOf(line) && FieldValue(line) == ValueOf(line)
  {
    FirstChar(line, ':');
    var colon := IndexOf(line, ":", 0);
    NameLengthIs(line, if colon == -1 then |line| else colon);
    if colon != -1 && colon + 1 < |line| && line[colon + 1] == ' ' {
      assert line[colon + 1..][1..] == line[colon + 2..];
    }
  }

  // A carriage return that ends a line of a block is no part of it.
  lemma FinalCrIsDropped(fields: Fields, line: string, rest: seq<string>)
    ensures WithLines(fields, [line + "\r"] + rest) == WithLines(WithLine(fields, line), rest)
  {
    var lines := [line + "\r"] + rest;
    assert lines[1..] == rest && lines[0][..|line|] == line;
  }

  // The buffers hold what the block parser has collected.
  ghost predicate Agree(b: Buffers, fields: Fields) {
    b.eventType == fields.event && b.data == Terminated(fields.dataLines)
  }

  lemma ProcessAgrees(b: Buffers, fields: Fields, line: string)
    requires Agree(b, fields) && line != ""
    ensures Agree(Process(b, line), WithLine(fields, line))
  {
    ParserReadsTheLine(line);
    var after := WithLine(fields, line).dataLines;
    if after != fields.dataLines { assert after[..|after| - 1] == fields.dataLines; }
  }

  lemma DispatchAgrees(b: Buffers, fields: Fields)
    requires Agree(b, fields)
    ensures Dispatch(b) == AsSeq(Finish(fields))
  {
    if fields.dataLines != [] { TerminatedIsJoin(fields.dataLines); }
  }

  ghost predicate NoBlankLineInside(block: string) { forall k :: !BreakAt(block + "\n", k) }

  lemma SplitFirstLine(block: string, k: nat)
    requires NoCr(block) && k == LineEnd(block)
    ensures Split(block, '\n') == if k == |block| then [block] else [block[..k]] + Split(block[k + 1..], '\n')
  {
    FirstChar(block, '\n');
    assert IndexOf(block, ['\n'], 0) == if k == |block| then -1 else k;
  }

  // The last line of a block, and the blank line that ends the block.
  lemma LastLineAgrees(whole: string, line: string, rest: string, b: Buffers, fields: Fields)
    requires whole == line + "\n" + ("\n" + rest)
    requires NoCr(line) && LineEnd(line) == |line| && Agree(b, fields)
    requires line == "" ==> fields == NO_FIELDS
    ensures Interpret(whole, b) == AsSeq(Finish(WithLine(fields, line))) + Interpret(rest, FRESH)
  {
    var after := "\n" + rest;
    LineThenRest(whole, line, after, b);
    if line == "" {
      BlankLine(after, rest, FRESH);
      DispatchAgrees(b, fields);
    } else {
      ProcessAgrees(b, fields, line);
      BlankLine(after, rest, Process(b, line));
      DispatchAgrees(Process(b, line), WithLine(fields, line));
    }
  }

  lemma BlankLine(after: string, rest: string, b: Buffers)
    requires after == "\n" + rest
    ensures Interpret(after, b) == Dispatch(b) + Interpret(rest, FRESH)
  {
    assert after == "" + "\n" + rest;
    LineThenRest(after, "", rest, b);
  }

  lemma RestHasNoBlankLine(block: string, k: nat, next: string)
    requires NoBlankLineInside(block) && NoCr(block) && k == LineEnd(block) && k < |block| && next == block[k + 1..]
    ensures NoBlankLineInside(next) && NoCr(next) && next != "" && next[0] != '\n'
  {
    assert !BreakAt(block + "\n", k);
    forall j ensures !BreakAt(next + "\n", j) { assert !BreakAt(block + "\n", k + 1 + j); }
  }

  lemma {:induction false} BlockAgrees(whole: string, block: string, lines: seq<string>, rest: string, b: Buffers,
                                       fields: Fields)
    requires whole == block + "\n" + ("\n" + rest) && lines == Split(block, '\n')
    requires NoCr(block) && NoBlankLineInside(block) && Agree(b, fields)
    requires block == "" || block[0] == '\n' ==> fields == NO_FIELDS
    ensures Interpret(whole, b) == AsSeq(Finish(WithLines(fields, lines))) + Interpret(rest, FRESH)
    decreases |block|
  {
    var k := LineEnd(block);
    SplitFirstLine(block, k);
    if k == |block| {
      LastLineAgrees(whole, block, rest, b, fields);
      WithOneLine(fields, block);
    } else {
      var line, next := block[..k], block[k + 1..];
      var b', fields' := if line == "" then FRESH else Process(b, line), WithLine(fields, line);
      RestHasNoBlankLine(block, k, next);
      LineEndAt(line, k);
      if line != "" { ProcessAgrees(b, fields, line); } else { DispatchAgrees(b, fields); }
      FirstLineOfBlock(whole, block, k, line, next, rest, b);
      BlockAgrees(next + "\n" + ("\n" + rest), next, lines[1..], rest, b', fields');
      WithFirstLine(fields, line, lines);
    }
  }

  lemma FirstLineOfBlock(whole: string, block: string, k: nat, line: string, next: string, rest: string, b: Buffers)
    requires whole == block + "\n" + ("\n" + rest)
    requires NoCr(block) && k == LineEnd(block) && k < |block| && line == block[..k] && next == block[k + 1..]
    ensures var after := next + "\n" + ("\n" + rest);
            Interpret(whole, b)
            == if line == "" then Dispatch(b) + Interpret(after, FRESH) else Interpret(after, Process(b, line))
  {
    var after := next + "\n" + ("\n" + rest);
    LineEndAt(line, k);
    assert block == line + "\n" + next;
    assert whole == line + "\n" + after;
    LineThenRest(whole, line, after, b);
  }

  lemma WithOneLine(fields: Fields, line: string)
    requires NoCr(line)
    ensures WithLines(fields, [line]) == WithLine(fields, line)
  {
    var lines: seq<string> := [line];
    assert lines[1..] == [] && WithoutCr(line) == line;
  }

  lemma WithFirstLine(fields: Fields, line: string, lines: seq<string>)
    requires lines != [] && lines[0] == line && NoCr(line)
    ensures WithLines(fields, lines) == WithLines(WithLine(fields, line), lines[1..])
  {
    assert WithoutCr(line) == line;
  }

  lemma {:induction false} BlocksAgree(s: string)
    requires NoCr(s)
    ensures Interpret(s, FRESH) == EventsOf(Drain(s).blocks)
    decreases |s|
  {
    var idx := FirstBreak(s);
    if idx == -1 {
      NoBreakNoEvent(s, FRESH);
    } else {
      var block, rest := s[..idx], s[idx + 2..];
      FirstBlockAgrees(s, idx);
      BlocksAgree(rest);
      DrainUnfolds(s, idx, block, s[..idx + 2], rest);
      EventsOfFirst(block, Drain(rest).blocks);
    }
  }

  lemma EventsOfOne(block: string, one: seq<string>)
    requires one == [block]
    ensures EventsOf(one) == AsSeq(EventOf(block))
  {
    assert one[..0] == [] && EventsOf(one[..0]) == [];
  }

  lemma EventsOfFirst(block: string, blocks: seq<string>)
    ensures EventsOf([block] + blocks) == AsSeq(EventOf(block)) + EventsOf(blocks)
  {
    EventsOfOne(block, [block]);
    EventsConcat([block], blocks);
  }

  lemma FirstBlockAgrees(s: string, idx: nat)
    requires NoCr(s) && idx == FirstBreak(s)
    ensures Interpret(s, FRESH) == AsSeq(EventOf(s[..idx])) + Interpret(s[idx + 2..], FRESH)
  {
    var block, rest := s[..idx], s[idx + 2..];
    assert s == block + "\n" + ("\n" + rest);
    forall k ensures !BreakAt(block + "\n", k) { assert 0 <= k < idx ==> !BreakAt(s, k); }
    BlockAgrees(s, block, Split(block, '\n'), rest, FRESH, NO_FIELDS);
  }

  // Without a blank line after something, nothing is dispatched.
  lemma {:induction false} NoBreakNoEvent(s: string, b: Buffers)
    requires NoCr(s) && forall k :: !BreakAt(s, k)
    requires s != "" && s[0] == '\n' ==> b == FRESH
    ensures Interpret(s, b) == []
    decreases |s|
  {
    var k := LineEnd(s);
    if k < |s| {
      var next := AfterLine(s);
      forall j ensures !BreakAt(next, j) { assert !BreakAt(s, k + 1 + j); }
      assert !BreakAt(s, k);
      NoBreakNoEvent(next, if k == 0 then FRESH else Process(b, s[..k]));
    }
  }
}
