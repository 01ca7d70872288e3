// The chunked server-sent-events parser of apps/api/src/ai/sse.ts, on characters.
module Sse {
  import opened Basics
  import opened Text

  datatype SseEvent = SseEvent(event: Option<string>, data: string)

  // --------------------------------------------------------------------
  // One event block
  // --------------------------------------------------------------------

  datatype Fields = Fields(event: Option<string>, dataLines: seq<string>)

  const NO_FIELDS: Fields := Fields(None, [])

  function DropOneSpace(value: string): string {
    if value != "" && value[0] == ' ' then value[1..] else value
  }

  function Field(line: string): string {
    var colon := IndexOf(line, ":", 0);
    if colon == -1 then line else line[..colon]
  }

  function FieldValue(line: string): string {
    var colon := IndexOf(line, ":", 0);
    if colon == -1 then "" else DropOneSpace(line[colon + 1..])
  }

  function WithLine(fields: Fields, line: string): Fields {
    if line == "" || line[0] == ':' then fields
    else if Field(line) == "event" then fields.(event := Some(FieldValue(line)))
    else if Field(line) == "data" then fields.(dataLines := fields.dataLines + [FieldValue(line)])
    else fields
  }

  function WithoutCr(line: string): string {
    if line != "" && line[|line| - 1] == '\r' then line[..|line| - 1] else line
  }

  function WithLines(fields: Fields, lines: seq<string>): Fields
    decreases |lines|
  {
    if lines == [] then fields else WithLines(WithLine(fields, WithoutCr(lines[0])), lines[1..])
  }

  // No event without a data line.
  function Finish(fields: Fields): Option<SseEvent> {
    if fields.dataLines == [] then None else Some(SseEvent(fields.event, Join(fields.dataLines, "\n")))
  }

  function EventOf(block: string): Option<SseEvent> { Finish(WithLines(NO_FIELDS, Split(block, '\n'))) }

  function AsSeq<T>(o: Option<T>): seq<T> { if o.Some? then [o.value] else [] }

  method ParseEventBlock(block: string) returns (r: Option<SseEvent>)
    ensures r == EventOf(block)
  {
    var event: Option<string> := None;
    var dataLines: seq<string> := [];
    var lines := Split(block, '\n');
    for n := 0 to |lines|
      invariant WithLines(Fields(event, dataLines), lines[n..]) == WithLines(NO_FIELDS, lines)
    {
      assert lines[n..][1..] == lines[n + 1..];
      var line := WithoutCr(lines[n]);
      if line == "" || line[0] == ':' { continue; }
      var colon := IndexOf(line, ":", 0);
      var field := if colon == -1 then line else line[..colon];
      var value := if colon == -1 then "" else DropOneSpace(line[colon + 1..]);
      if field == "event" {
        event := Some(value);
      } else if field == "data" {
        dataLines := dataLines + [value];
      }
    }
    if dataLines == [] { return None; }
    return Some(SseEvent(event, Join(dataLines, "\n")));
  }

  // --------------------------------------------------------------------
  // The buffer
  // --------------------------------------------------------------------

  // replace(/\r\n?/g, '\n')
  function Normalize(s: string): string {
    if s == "" then ""
    else if s[0] != '\r' then [s[0]] + Normalize(s[1..])
    else ['\n'] + Normalize(if |s| > 1 && s[1] == '\n' then s[2..] else s[1..])
  }

  predicate EndsInCr(s: string) { s != "" && s[|s| - 1] == '\r' }

  // A carriage return at the very end waits: it may be half of a CRLF.
  function NormalizePending(s: string): string {
    if EndsInCr(s) then Normalize(s[..|s| - 1]) + "\r" else Normalize(s)
  }

  predicate BreakAt(s: string, k: int) { 0 <= k < |s| - 1 && s[k] == '\n' && s[k + 1] == '\n' }

  // buf.indexOf('\n\n')
  function FirstBreak(s: string): (r: int)
    ensures r == -1 || BreakAt(s, r)
    ensures forall k | 0 <= k && (r == -1 || k < r) :: !BreakAt(s, k)
  {
    if BreakAt(s, 0) then 0
    else if s == "" then -1
    else
      var r := FirstBreak(s[1..]);
      assert forall k | 1 <= k :: BreakAt(s, k) <==> BreakAt(s[1..], k - 1);
      if r == -1 then -1 else r + 1
  }

  datatype Drained = Drained(blocks: seq<string>, rest: string)

  // Takes every block that a blank line has ended off the front.
  function Drain(buf: string): Drained
    decreases |buf|
  {
    var idx := FirstBreak(buf);
    if idx == -1 then Drained([], buf)
    else
      var d := Drain(buf[idx + 2..]);
      Drained([buf[..idx]] + d.blocks, d.rest)
  }

  function EventsOf(blocks: seq<string>): seq<SseEvent> {
    if blocks == [] then [] else EventsOf(blocks[..|blocks| - 1]) + AsSeq(EventOf(blocks[|blocks| - 1]))
  }

  function Tail(buf: string): seq<SseEvent> {
    if Trim(buf) == "" then [] else AsSeq(EventOf(Trim(buf)))
  }

  // The events of a whole text.
  function Events(text: string): seq<SseEvent> {
    var d := Drain(NormalizePending(text));
    EventsOf(d.blocks) + Tail(d.rest)
  }

  function Concat(chunks: seq<string>): string {
    if chunks == [] then "" else Concat(chunks[..|chunks| - 1]) + chunks[|chunks| - 1]
  }

  // --------------------------------------------------------------------
  // Cutting the text anywhere
  // --------------------------------------------------------------------

  predicate NoCr(s: string) { forall k | 0 <= k < |s| :: s[k] != '\r' }

  lemma {:induction false} NormalizeHasNoCr(s: string)
    ensures NoCr(Normalize(s))
    decreases |s|
  {
    if s != "" {
      if s[0] != '\r' { NormalizeHasNoCr(s[1..]); }
      else if |s| > 1 && s[1] == '\n' { NormalizeHasNoCr(s[2..]); }
      else { NormalizeHasNoCr(s[1..]); }
    }
  }

  // Normalising goes piece by piece unless the cut falls inside a CRLF.
  lemma {:induction false} NormalizeConcat(a: string, b: string)
    requires !(EndsInCr(a) && b != "" && b[0] == '\n')
    ensures Normalize(a + b) == Normalize(a) + Normalize(b)
    decreases |a|
  {
    if a == "" {
      assert a + b == b;
    } else if a[0] == '\r' && |a| > 1 && a[1] == '\n' {
      FirstAndRest(a, 2, b);
      NormalizeConcat(a[2..], b);
      NormalizeCrLf(a + b, a[2..] + b);
      NormalizeCrLf(a, a[2..]);
      Reassociate(['\n'], Normalize(a[2..]), Normalize(b));
    } else {
      FirstAndRest(a, 1, b);
      NormalizeConcat(a[1..], b);
      NormalizeOne(a + b, a[0], a[1..] + b);
      NormalizeOne(a, a[0], a[1..]);
      Reassociate([if a[0] == '\r' then '\n' else a[0]], Normalize(a[1..]), Normalize(b));
    }
  }

  lemma NormalizeCrLf(s: string, rest: string)
    requires s == ['\r', '\n'] + rest
    ensures Normalize(s) == ['\n'] + Normalize(rest)
  {
    assert s[2..] == rest;
  }

  lemma NormalizeOne(s: string, c: char, rest: string)
    requires s == [c] + rest && !(c == '\r' && rest != "" && rest[0] == '\n')
    ensures Normalize(s) == [if c == '\r' then '\n' else c] + Normalize(rest)
  {
    assert s[1..] == rest && (|s| > 1 ==> s[1] == rest[0]);
  }

  lemma {:induction false} NormalizeKeepsClean(p: string)
    requires NoCr(p)
    ensures Normalize(p) == p
  {
    if p != "" { NormalizeKeepsClean(p[1..]); }
  }

  lemma PendingAfter(a: string, b: string)
    requires !EndsInCr(a) || (b != "" && b[0] != '\n')
    ensures NormalizePending(a + b) == Normalize(a) + NormalizePending(b)
  {
    if b == "" {
      assert a + b == a;
    } else if EndsInCr(b) {
      assert (a + b)[..|a + b| - 1] == a + b[..|b| - 1];
      NormalizeConcat(a, b[..|b| - 1]);
    } else {
      NormalizeConcat(a, b);
    }
  }

  lemma CleanResumes(x: string, y: string)
    requires !EndsInCr(x) || (y != "" && y[0] != '\n')
    ensures NormalizePending(Normalize(x) + y) == NormalizePending(x + y)
  {
    NormalizeHasNoCr(x);
    NormalizeKeepsClean(Normalize(x));
    PendingAfter(Normalize(x), y);
    PendingAfter(x, y);
  }

  // What was normalised before a chunk arrived need not be kept apart from it.
  lemma PendingResumes(x: string, y: string)
    ensures NormalizePending(NormalizePending(x) + y) == NormalizePending(x + y)
  {
    if EndsInCr(x) {
      var front := x[..|x| - 1];
      FrontAndLast(x, |x| - 1);
      Reassociate(front, "\r", y);
      Reassociate(Normalize(front), "\r", y);
      CleanResumes(front, "\r" + y);
    } else {
      CleanResumes(x, y);
    }
  }

  // What Drain took off the front.
  function Taken(buf: string): string
    decreases |buf|
  {
    var idx := FirstBreak(buf);
    if idx == -1 then "" else buf[..idx + 2] + Taken(buf[idx + 2..])
  }

  lemma {:induction false} TakenAndRest(buf: string)
    ensures buf == Taken(buf) + Drain(buf).rest
    ensures forall k :: !BreakAt(Drain(buf).rest, k)
    decreases |buf|
  {
    var idx := FirstBreak(buf);
    if idx != -1 {
      var front, next := buf[..idx + 2], buf[idx + 2..];
      TakenAndRest(next);
      assert buf == front + next;
      Reassociate(front, Taken(next), Drain(next).rest);
    }
  }

  // Blocks already taken stay the same whatever follows them.
  lemma {:induction false} DrainResumes(buf: string, z: string)
    ensures Drain(Taken(buf) + z) == Drained(Drain(buf).blocks + Drain(z).blocks, Drain(z).rest)
    decreases |buf|
  {
    var idx := FirstBreak(buf);
    if idx == -1 {
      assert Taken(buf) + z == z;
    } else {
      var block, front, next := buf[..idx], buf[..idx + 2], buf[idx + 2..];
      var tail := Taken(next) + z;
      DrainResumes(next, z);
      DrainUnfolds(buf, idx, block, front, next);
      DrainPrepends(buf, idx, block, front, tail, front + tail);
      Reassociate(front, Taken(next), z);
      Reassociate([block], Drain(next).blocks, Drain(z).blocks);
    }
  }

  lemma DrainPrepends(buf: string, idx: nat, block: string, front: string, tail: string, whole: string)
    requires idx == FirstBreak(buf) && block == buf[..idx] && front == buf[..idx + 2] && whole == front + tail
    ensures Drain(whole) == Drained([block] + Drain(tail).blocks, Drain(tail).rest)
  {
    FirstBreakStays(buf, whole, idx);
    assert whole[..idx] == block && whole[idx + 2..] == tail;
    DrainUnfolds(whole, idx, block, front, tail);
  }

  lemma DrainUnfolds(buf: string, idx: nat, block: string, front: string, next: string)
    requires idx == FirstBreak(buf) && block == buf[..idx] && front == buf[..idx + 2] && next == buf[idx + 2..]
    ensures Drain(buf) == Drained([block] + Drain(next).blocks, Drain(next).rest)
    ensures Taken(buf) == front + Taken(next)
  {
  }

  lemma FirstBreakStays(buf: string, whole: string, idx: nat)
    requires idx == FirstBreak(buf) && idx + 2 <= |whole| && whole[..idx + 2] == buf[..idx + 2]
    ensures FirstBreak(whole) == idx
  {
    assert forall k | 0 <= k < idx + 2 :: whole[k] == whole[..idx + 2][k] == buf[..idx + 2][k] == buf[k];
    assert BreakAt(whole, idx);
    var r := FirstBreak(whole);
    assert BreakAt(buf, r);
  }

  // One more chunk.
  lemma ChunkArrives(text: string, chunk: string)
    ensures var d := Drain(NormalizePending(text));
            var e := Drain(NormalizePending(d.rest + chunk));
            Drain(NormalizePending(text + chunk)) == Drained(d.blocks + e.blocks, e.rest)
  {
    var s := NormalizePending(text);
    var d := Drain(s);
    TakenAndRest(s);
    assert NoCr(Taken(s)) by { TakenHasNoCr(text); }
    PendingResumes(text, chunk);
    Reassociate(Taken(s), d.rest, chunk);
    NormalizeKeepsClean(Taken(s));
    PendingAfter(Taken(s), d.rest + chunk);
    DrainResumes(s, NormalizePending(d.rest + chunk));
  }

  lemma {:induction false} TakenEndsInBreak(buf: string)
    ensures Taken(buf) == "" || Taken(buf)[|Taken(buf)| - 1] == '\n'
    decreases |buf|
  {
    var idx := FirstBreak(buf);
    if idx != -1 {
      TakenEndsInBreak(buf[idx + 2..]);
    }
  }

  lemma TakenHasNoCr(text: string)
    ensures NoCr(Taken(NormalizePending(text)))
  {
    var s := NormalizePending(text);
    TakenAndRest(s);
    TakenEndsInBreak(s);
    NormalizeHasNoCr(text);
    if EndsInCr(text) { NormalizeHasNoCr(text[..|text| - 1]); }
    var t := Taken(s);
    forall k | 0 <= k < |t| ensures t[k] != '\r' { assert t[k] == s[k]; }
  }

  lemma {:induction false} EventsConcat(a: seq<string>, b: seq<string>)
    ensures EventsOf(a + b) == EventsOf(a) + EventsOf(b)
    decreases |b|
  {
    if b == [] {
      assert a + b == a;
    } else {
      var n := |b| - 1;
      assert (a + b)[..|a + b| - 1] == a + b[..n];
      EventsConcat(a, b[..n]);
    }
  }

  lemma BlockLeaves(buf: string, idx: nat)
    requires idx == FirstBreak(buf)
    ensures Drain(buf) == Drained([buf[..idx]] + Drain(buf[idx + 2..]).blocks, Drain(buf[idx + 2..]).rest)
  {
  }

  // The inner loop: every complete block leaves the buffer, and its event is emitted.
  method TakeBlocks(text: string) returns (events: seq<SseEvent>, buf: string)
    ensures events == EventsOf(Drain(text).blocks) && buf == Drain(text).rest
  {
    events, buf := [], text;
    ghost var blocks: seq<string> := [];
    var idx := FirstBreak(buf);
    while idx != -1
      invariant idx == FirstBreak(buf)
      invariant Drain(text).rest == Drain(buf).rest
      invariant Drain(text).blocks == blocks + Drain(buf).blocks
      invariant events == EventsOf(blocks)
      decreases |buf|
    {
      var block := buf[..idx];
      var evt := ParseEventBlock(block);
      BlockLeaves(buf, idx);
      Reassociate(blocks, [block], Drain(buf[idx + 2..]).blocks);
      EventsConcat(blocks, [block]);
      blocks := blocks + [block];
      buf := buf[idx + 2..];
      if evt.Some? { events := events + [evt.value]; }
      idx := FirstBreak(buf);
    }
    assert Drain(buf) == Drained([], buf) && blocks + [] == blocks;
  }

  // However a text is cut into chunks, even inside a CRLF, the events are those of
  // the whole text.
  method ParseSse(chunks: seq<string>) returns (events: seq<SseEvent>)
    ensures events == Events(Concat(chunks))
  {
    events := [];
    var buf := "";
    ghost var blocks := [];
    for n := 0 to |chunks|
      invariant Drained(blocks, buf) == Drain(NormalizePending(Concat(chunks[..n])))
      invariant events == EventsOf(blocks)
    {
      assert chunks[..n + 1][..n] == chunks[..n];
      ChunkArrives(Concat(chunks[..n]), chunks[n]);
      var more, rest := TakeChunk(buf, chunks[n]);
      ghost var taken := Drain(NormalizePending(buf + chunks[n])).blocks;
      EventsConcat(blocks, taken);
      blocks := blocks + taken;
      events, buf := events + more, rest;
    }
    assert chunks[..|chunks|] == chunks;
    var tail := Trim(buf);
    if tail != "" {
      var evt := ParseEventBlock(tail);
      if evt.Some? { events := events + [evt.value]; }
    }
  }

  method NormalizedBuffer(buffered: string) returns (buf: string)
    ensures buf == NormalizePending(buffered)
  {
    buf := buffered;
    var pendingCr := EndsInCr(buf);
    if pendingCr { buf := buf[..|buf| - 1]; }
    buf := Normalize(buf);
    if pendingCr { buf := buf + "\r"; }
  }

  // One pass of the outer loop.
  method TakeChunk(buffered: string, chunk: string) returns (events: seq<SseEvent>, buf: string)
    ensures var d := Drain(NormalizePending(buffered + chunk)); events == EventsOf(d.blocks) && buf == d.rest
  {
    buf := NormalizedBuffer(buffered + chunk);
    events, buf := TakeBlocks(buf);
  }
}
