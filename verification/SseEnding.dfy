// How the parser and the reference of section 9.2.6 of the WHATWG HTML Standard
// compare at the end of a stream: the parser trims what is left and reads it as one
// more block, the reference drops it unless a final CR ends it.
module SseEnding {
  import opened Basics
  import opened Text
  import opened Sse
  import opened SseReference

  // A final CR may be half of a CRLF, so the parser holds it back.
  function BeforeCr(text: string): string { if EndsInCr(text) then text[..|text| - 1] else text }

  // What no blank line has ended, short of a final CR.
  function Unfinished(text: string): string { Drain(Normalize(BeforeCr(text))).rest }

  // The final CR is a blank line that ends the last block.
  predicate IsClosedByCr(text: string) {
    EndsInCr(text) && Unfinished(text) != "" && Unfinished(text)[|Unfinished(text)| - 1] == '\n'
  }

  function LastBlock(text: string): string
    requires Unfinished(text) != ""
  {
    Unfinished(text)[..|Unfinished(text)| - 1]
  }

  predicate HasDataLine(s: string) {
    exists k | 0 <= k < |Split(s, '\n')| :: Field(Split(s, '\n')[k]) == "data"
  }

  // --------------------------------------------------------------------
  // White space around a block
  // --------------------------------------------------------------------

  predicate AllSpace(s: string) { forall k | 0 <= k < |s| :: IsSpace(s[k]) }

  function SpaceBefore(s: string): string {
    if s != "" && IsSpace(s[0]) then [s[0]] + SpaceBefore(s[1..]) else ""
  }

  function SpaceAfter(s: string): string {
    if s != "" && IsSpace(s[|s| - 1]) then SpaceAfter(s[..|s| - 1]) + [s[|s| - 1]] else ""
  }

  // What trimming drops in front of the first line it leaves, and behind the last.
  function Margin(block: string): string {
    var lines := Split(SpaceBefore(block), '\n');
    lines[|lines| - 1]
  }

  function Trail(block: string): string { Split(SpaceAfter(TrimStart(block)), '\n')[0] }

  // --------------------------------------------------------------------
  // When trimming a block changes its event
  // --------------------------------------------------------------------

  // Dropping `trail` behind the line changes its value, or makes its name a field's:
  // all but the single space behind a final colon, which is no part of the value.
  predicate Spoils(trail: string, line: string) {
    trail != "" && !(trail == " " && line != "" && IndexOf(line, ":", 0) == |line| - 1)
  }

  // The last line that names the event; -1 when none does.
  function EventLine(lines: seq<string>): (i: int)
    ensures -1 <= i < |lines| && (i >= 0 ==> Field(lines[i]) == "event")
    ensures forall k | i < k < |lines| :: Field(lines[k]) != "event"
  {
    if lines == [] then -1
    else if Field(lines[|lines| - 1]) == "event" then |lines| - 1
    else EventLine(lines[..|lines| - 1])
  }

  // The trimmed lines name the same event as the lines with `margin` in front and
  // `trail` behind. A name on the last line that `trail` spoils is only missed when
  // it is empty and so is the one before it.
  predicate KeepsEventName(margin: string, lines: seq<string>, trail: string)
    requires lines != []
  {
    var last := |lines| - 1;
    var i := EventLine(lines);
    i == -1 || (!(i == 0 && margin != "")
      && (i < last || !Spoils(trail, lines[i])
          || (lines[i] == "event" &&
              var j := EventLine(lines[..last]);
              j >= 0 && !(j == 0 && margin != "") && FieldValue(lines[j]) == "")))
  }

  // No data line gains or loses by the trimming, and the event keeps its name.
  predicate TrimIsHarmless(block: string) {
    var lines, margin, trail := Split(Trim(block), '\n'), Margin(block), Trail(block);
    !HasDataLine(Trim(block))
    || (&& !(margin != "" && Field(lines[0]) == "data")
        && !(Spoils(trail, lines[|lines| - 1]) && Field(lines[|lines| - 1]) == "data")
        && KeepsEventName(margin, lines, trail))
  }

  // --------------------------------------------------------------------
  // The lines of a block and of the trimmed block
  // --------------------------------------------------------------------

  lemma {:induction false} SpaceBeforeIs(s: string)
    ensures s == SpaceBefore(s) + TrimStart(s) && AllSpace(SpaceBefore(s))
  {
    if s != "" && IsSpace(s[0]) { SpaceBeforeIs(s[1..]); }
  }

  lemma {:induction false} SpaceAfterIs(s: string)
    ensures s == TrimEnd(s) + SpaceAfter(s) && AllSpace(SpaceAfter(s))
  {
    if s != "" && IsSpace(s[|s| - 1]) { SpaceAfterIs(s[..|s| - 1]); }
  }

  // Two lists of lines whose texts are written one behind the other.
  function Glued(x: seq<string>, y: seq<string>): seq<string>
    requires x != [] && y != []
  {
    x[..|x| - 1] + [x[|x| - 1] + y[0]] + y[1..]
  }

  lemma {:induction false} SplitConcat(a: string, b: string, c: char)
    ensures Split(a + b, c) == Glued(Split(a, c), Split(b, c))
    decreases |a|
  {
    var found, front, rest := CutFirst(a, c);
    if !found {
      SplitBehindPlain(a, b, c);
    } else {
      SplitConcat(rest, b, c);
      Reassociate(front + [c], rest, b);
      SplitFirst(a + b, front, c, rest + b);
      GluedBehind(front, Split(rest, c), Split(b, c));
    }
  }

  lemma PlainBeforeFirst(a: string, front: string, c: char, rest: string)
    requires Lacks(a, c) && Lacks(front, c)
    ensures Split(a + (front + [c] + rest), c) == [a + front] + Split(rest, c)
  {
    Reassociate(a, front + [c], rest);
    Reassociate(a, front, [c]);
    LacksBoth(a, front, c);
    SplitFirst(a + (front + [c] + rest), a + front, c, rest);
  }

  lemma SplitBehindPlain(a: string, b: string, c: char)
    requires Lacks(a, c)
    ensures Split(a + b, c) == Glued(Split(a, c), Split(b, c))
  {
    SplitWhole(a, c);
    var found, front, rest := CutFirst(b, c);
    if !found {
      SplitWhole(a + b, c);
    } else {
      PlainBeforeFirst(a, front, c, rest);
    }
  }

  lemma LacksBoth(a: string, b: string, c: char)
    requires Lacks(a, c) && Lacks(b, c)
    ensures Lacks(a + b, c)
  {
  }

  lemma GluedBehind(front: string, x: seq<string>, y: seq<string>)
    requires x != [] && y != []
    ensures Glued([front] + x, y) == [front] + Glued(x, y)
  {
    var z := [front] + x;
    assert z[..|z| - 1] == [front] + x[..|x| - 1];
  }

  // --------------------------------------------------------------------
  // Blank lines say nothing
  // --------------------------------------------------------------------

  lemma {:induction false} WithLinesConcat(fields: Fields, a: seq<string>, b: seq<string>)
    ensures WithLines(fields, a + b) == WithLines(WithLines(fields, a), b)
    decreases |a|
  {
    if a == [] {
      assert a + b == b;
    } else {
      assert (a + b)[1..] == a[1..] + b;
      WithLinesConcat(WithLine(fields, WithoutCr(a[0])), a[1..], b);
    }
  }

  // A line that starts with white space names neither field.
  lemma SpacedLineIsNoField(line: string)
    requires line == "" || IsSpace(line[0])
    ensures Field(line) != "data" && Field(line) != "event"
  {
    FirstChar(line, ':');
    if line != "" && Field(line) != "" { assert Field(line)[0] == line[0]; }
  }

  lemma {:induction false} BlankLines(fields: Fields, lines: seq<string>)
    requires forall k | 0 <= k < |lines| :: AllSpace(lines[k])
    ensures WithLines(fields, lines) == fields
    decreases |lines|
  {
    if lines != [] {
      SpacedLineIsNoField(WithoutCr(lines[0]));
      BlankLines(fields, lines[1..]);
    }
  }

  lemma {:induction false} SplitOfSpace(s: string)
    requires AllSpace(s)
    ensures forall k | 0 <= k < |Split(s, '\n')| :: AllSpace(Split(s, '\n')[k])
    decreases |s|
  {
    var found, front, rest := CutFirst(s, '\n');
    if found {
      SpaceInParts(s, front, rest);
      SplitOfSpace(rest);
    }
  }

  lemma SpaceInParts(s: string, front: string, rest: string)
    requires AllSpace(s) && s == front + ['\n'] + rest
    ensures AllSpace(front) && AllSpace(rest)
  {
    forall k | 0 <= k < |front| ensures IsSpace(front[k]) { assert s[k] == front[k]; }
    forall k | 0 <= k < |rest| ensures IsSpace(rest[k]) { assert s[|front| + 1 + k] == rest[k]; }
  }

  // The trimmed lines with what was dropped beside the first and behind the last.
  function Framed(margin: string, lines: seq<string>, trail: string): seq<string>
    requires lines != []
  {
    Trailed([margin + lines[0]] + lines[1..], trail)
  }

  function Trailed(lines: seq<string>, trail: string): seq<string>
    requires lines != []
  {
    lines[..|lines| - 1] + [lines[|lines| - 1] + trail]
  }

  // The lines of a text between white space: blank ones around the framed ones.
  lemma FramedLines(x: seq<string>, lines: seq<string>, y: seq<string>)
    requires x != [] && lines != [] && y != []
    ensures Glued(Glued(x, lines), y) == x[..|x| - 1] + Framed(x[|x| - 1], lines, y[0]) + y[1..]
  {
    var front, inner := x[..|x| - 1], [x[|x| - 1] + lines[0]] + lines[1..];
    assert Glued(x, lines) == front + inner;
    var n := |inner| - 1;
    assert (front + inner)[..|front| + n] == front + inner[..n];
    Reassociate(front, inner[..n], [inner[n] + y[0]]);
  }

  lemma SplitInThree(block: string, before: string, text: string, after: string)
    requires block == before + text + after
    ensures Split(block, '\n') == Glued(Glued(Split(before, '\n'), Split(text, '\n')), Split(after, '\n'))
  {
    SplitConcat(before, text, '\n');
    SplitConcat(before + text, after, '\n');
  }

  lemma BlockIsFramed(x: seq<string>, lines: seq<string>, y: seq<string>)
    requires x != [] && lines != [] && y != []
    requires forall k | 0 <= k < |x| :: AllSpace(x[k])
    requires forall k | 0 <= k < |y| :: AllSpace(y[k])
    ensures WithLines(NO_FIELDS, Glued(Glued(x, lines), y)) == WithLines(NO_FIELDS, Framed(x[|x| - 1], lines, y[0]))
  {
    FramedLines(x, lines, y);
    BlanksAround(x[..|x| - 1], Framed(x[|x| - 1], lines, y[0]), y[1..]);
  }

  lemma BlockLines(block: string)
    ensures WithLines(NO_FIELDS, Split(block, '\n'))
         == WithLines(NO_FIELDS, Framed(Margin(block), Split(Trim(block), '\n'), Trail(block)))
  {
    var before, text, after := SpaceBefore(block), Trim(block), SpaceAfter(TrimStart(block));
    SpaceBeforeIs(block);
    SpaceAfterIs(TrimStart(block));
    Reassociate(before, text, after);
    SplitInThree(block, before, text, after);
    SplitOfSpace(before);
    SplitOfSpace(after);
    BlockIsFramed(Split(before, '\n'), Split(text, '\n'), Split(after, '\n'));
  }

  lemma BlanksAround(front: seq<string>, lines: seq<string>, back: seq<string>)
    requires forall k | 0 <= k < |front| :: AllSpace(front[k])
    requires forall k | 0 <= k < |back| :: AllSpace(back[k])
    ensures WithLines(NO_FIELDS, front + lines + back) == WithLines(NO_FIELDS, lines)
  {
    WithLinesConcat(NO_FIELDS, front + lines, back);
    WithLinesConcat(NO_FIELDS, front, lines);
    BlankLines(NO_FIELDS, front);
    BlankLines(WithLines(NO_FIELDS, lines), back);
  }

  // --------------------------------------------------------------------
  // What a list of lines collects
  // --------------------------------------------------------------------

  function DataOf(line: string): seq<string> { if Field(line) == "data" then [FieldValue(line)] else [] }

  function DataIn(lines: seq<string>): seq<string> {
    if lines == [] then [] else DataIn(lines[..|lines| - 1]) + DataOf(lines[|lines| - 1])
  }

  function EventName(lines: seq<string>): Option<string> {
    var i := EventLine(lines);
    if i == -1 then None else Some(FieldValue(lines[i]))
  }

  lemma OneLineCollects(fields: Fields, line: string)
    requires NoCr(line)
    ensures WithLine(fields, line)
         == Fields(if Field(line) == "event" then Some(FieldValue(line)) else fields.event,
                   fields.dataLines + DataOf(line))
  {
    FirstChar(line, ':');
    assert fields.dataLines + [] == fields.dataLines;
  }

  lemma {:induction false} Collected(lines: seq<string>)
    requires forall k | 0 <= k < |lines| :: NoCr(lines[k])
    ensures WithLines(NO_FIELDS, lines) == Fields(EventName(lines), DataIn(lines))
  {
    if lines != [] {
      var n := |lines| - 1;
      var front, last := lines[..n], lines[n];
      Collected(front);
      FrontAndLast(lines, n);
      WithLinesConcat(NO_FIELDS, front, [last]);
      WithOneLine(WithLines(NO_FIELDS, front), last);
      OneLineCollects(WithLines(NO_FIELDS, front), last);
    }
  }

  lemma DataInAppend(front: seq<string>, line: string)
    ensures DataIn(front + [line]) == DataIn(front) + DataOf(line)
  {
    assert (front + [line])[..|front|] == front;
  }

  lemma {:induction false} DataInFirst(line: string, rest: seq<string>)
    ensures DataIn([line] + rest) == DataOf(line) + DataIn(rest)
    decreases |rest|
  {
    if rest == [] {
      assert [line] + rest == [] + [line];
      DataInAppend([], line);
    } else {
      var n := |rest| - 1;
      DataInFirst(line, rest[..n]);
      FrontAndLast(rest, n);
      Reassociate([line], rest[..n], [rest[n]]);
      DataInAppend([line] + rest[..n], rest[n]);
      Reassociate(DataOf(line), DataIn(rest[..n]), DataOf(rest[n]));
    }
  }

  lemma {:induction false} NoDataExactly(lines: seq<string>)
    ensures DataIn(lines) == [] <==> forall k | 0 <= k < |lines| :: Field(lines[k]) != "data"
  {
    if lines != [] {
      NoDataExactly(lines[..|lines| - 1]);
      assert forall k | 0 <= k < |lines| - 1 :: lines[k] == lines[..|lines| - 1][k];
    }
  }

  // Two events are the same exactly when there is no data, or the same data under the
  // same name.
  lemma SameEventExactly(a: Fields, b: Fields)
    requires forall k | 0 <= k < |a.dataLines| :: Lacks(a.dataLines[k], '\n')
    requires forall k | 0 <= k < |b.dataLines| :: Lacks(b.dataLines[k], '\n')
    ensures Finish(a) == Finish(b) <==> a.dataLines == b.dataLines && (a.dataLines == [] || a.event == b.event)
  {
    if a.dataLines != [] { SplitOfJoin(a.dataLines, '\n'); }
    if b.dataLines != [] { SplitOfJoin(b.dataLines, '\n'); }
  }

  // --------------------------------------------------------------------
  // One line with white space beside it
  // --------------------------------------------------------------------

  // A line is its name, a colon and a value, or has no colon.
  lemma CutAtColon(line: string) returns (found: bool, name: string, value: string)
    ensures found ==> line == name + ":" + value && Lacks(name, ':')
    ensures !found ==> Lacks(line, ':')
  {
    var c := IndexOf(line, ":", 0);
    FirstChar(line, ':');
    found := c != -1;
    name, value := if found then line[..c] else line, if found then line[c + 1..] else "";
  }

  lemma NamedLine(line: string, name: string, value: string)
    requires line == name + ":" + value && Lacks(name, ':')
    ensures IndexOf(line, ":", 0) == |name| && Field(line) == name && FieldValue(line) == DropOneSpace(value)
  {
    var n := |name|;
    assert line[n] == ':' && forall k | 0 <= k < n :: line[k] == name[k];
    FirstChar(line, ':');
    assert line[..n] == name && line[n + 1..] == value;
  }

  lemma PlainLine(line: string)
    requires Lacks(line, ':')
    ensures IndexOf(line, ":", 0) == -1 && Field(line) == line && FieldValue(line) == ""
  {
    FirstChar(line, ':');
  }

  // Without a colon a line with a trail names no field.
  lemma TrailedPlain(line: string, trail: string)
    requires AllSpace(trail) && trail != "" && Lacks(line, ':')
    ensures Field(line + trail) == line + trail && !IsNamed(line + trail)
  {
    var s := line + trail;
    assert Lacks(s, ':') && IsSpace(s[|s| - 1]);
    PlainLine(s);
  }

  predicate IsNamed(line: string) { Field(line) == "data" || Field(line) == "event" }

  lemma DroppedSpace(value: string, trail: string)
    requires trail != ""
    ensures |DropOneSpace(value + trail)| == |DropOneSpace(value)|
       <==> value == "" && |trail| == 1 && trail[0] == ' '
  {
    if value != "" { assert (value + trail)[0] == value[0]; } else { assert value + trail == trail; }
  }

  lemma DroppedIsSame(value: string, trail: string)
    requires trail != ""
    ensures DropOneSpace(value + trail) == DropOneSpace(value) <==> value == "" && trail == " "
  {
    DroppedSpace(value, trail);
    if value == "" && trail == " " { assert value + trail == " "; }
  }

  // With a colon it keeps its name, and its value unless the trail spoils it.
  lemma TrailedNamed(line: string, trail: string, name: string, value: string)
    requires trail != "" && line == name + ":" + value && Lacks(name, ':')
    ensures Field(line + trail) == Field(line) == name && line != name
    ensures FieldValue(line + trail) == FieldValue(line) <==> !Spoils(trail, line)
  {
    Reassociate(name + ":", value, trail);
    NamedLine(line, name, value);
    NamedLine(line + trail, name, value + trail);
    DroppedIsSame(value, trail);
  }

  // A spoiled line keeps its name with another value, or loses its name.
  lemma TrailedLine(line: string, trail: string)
    requires AllSpace(trail)
    ensures !Spoils(trail, line) ==> Field(line + trail) == Field(line) && FieldValue(line + trail) == FieldValue(line)
    ensures IsNamed(line + trail) ==> Field(line + trail) == Field(line)
    ensures Spoils(trail, line) && IsNamed(line + trail) ==> FieldValue(line + trail) != FieldValue(line)
    ensures IsNamed(line) && !IsNamed(line + trail) ==> line == Field(line) && FieldValue(line) == ""
    ensures Spoils(trail, line) && line == Field(line) ==> !IsNamed(line + trail)
  {
    if trail == "" {
      assert line + trail == line;
    } else {
      var found, name, value := CutAtColon(line);
      if found {
        TrailedNamed(line, trail, name, value);
      } else {
        PlainLine(line);
        TrailedPlain(line, trail);
      }
    }
  }

  lemma TrailedDataOf(line: string, trail: string)
    requires AllSpace(trail)
    ensures DataOf(line + trail) == DataOf(line) <==> !(Spoils(trail, line) && Field(line) == "data")
    ensures |DataOf(line + trail)| <= |DataOf(line)|
  {
    TrailedLine(line, trail);
  }

  lemma MarginedLine(margin: string, line: string)
    requires AllSpace(margin)
    ensures margin != "" ==> Field(margin + line) != "data" && Field(margin + line) != "event"
    ensures margin == "" ==> margin + line == line
  {
    if margin != "" { SpacedLineIsNoField(margin + line); }
  }

  // --------------------------------------------------------------------
  // Trimming a block
  // --------------------------------------------------------------------

  // What stands where in the framed lines.
  lemma FramedAt(margin: string, lines: seq<string>, trail: string, x: seq<string>)
    requires lines != [] && x == Framed(margin, lines, trail)
    ensures var n := |lines| - 1;
            && |x| == n + 1
            && (forall k | 0 < k < n :: x[k] == lines[k])
            && (n > 0 ==> x[0] == margin + lines[0] && x[n] == lines[n] + trail)
            && (n == 0 ==> x[0] == margin + lines[0] + trail)
            && (margin == "" ==> x[n] == lines[n] + trail && (n > 0 ==> x[0] == lines[0]))
  {
    if margin == "" { assert margin + lines[0] == lines[0]; }
  }

  // Data: the trail acts on the last line, the margin on the first.
  lemma TrailedData(lines: seq<string>, trail: string)
    requires lines != [] && AllSpace(trail)
    ensures var last := lines[|lines| - 1];
            && (DataIn(Trailed(lines, trail)) == DataIn(lines) <==> !(Spoils(trail, last) && Field(last) == "data"))
            && |DataIn(Trailed(lines, trail))| <= |DataIn(lines)|
  {
    var n := |lines| - 1;
    DataInAppend(lines[..n], lines[n] + trail);
    TrailedDataOf(lines[n], trail);
    SameBehind(DataIn(lines[..n]), DataOf(lines[n] + trail), DataOf(lines[n]));
  }

  lemma SameBehind(a: seq<string>, b: seq<string>, c: seq<string>)
    ensures a + b == a + c <==> b == c
  {
    assert (a + b)[|a|..] == b && (a + c)[|a|..] == c;
  }

  lemma MarginedData(margin: string, lines: seq<string>)
    requires lines != [] && AllSpace(margin)
    ensures var x := [margin + lines[0]] + lines[1..];
            && (DataIn(x) == DataIn(lines) <==> !(margin != "" && Field(lines[0]) == "data"))
            && |DataIn(x)| <= |DataIn(lines)|
            && (|DataIn(x)| == |DataIn(lines)| ==> DataIn(x) == DataIn(lines))
  {
    DataInFirst(lines[0], lines[1..]);
    DataInFirst(margin + lines[0], lines[1..]);
    assert [lines[0]] + lines[1..] == lines;
    MarginedLine(margin, lines[0]);
  }

  lemma FramedData(margin: string, lines: seq<string>, trail: string, last: string)
    requires lines != [] && last == lines[|lines| - 1] && AllSpace(margin) && AllSpace(trail)
    ensures DataIn(Framed(margin, lines, trail)) == DataIn(lines)
       <==> !(margin != "" && Field(lines[0]) == "data") && !(Spoils(trail, last) && Field(last) == "data")
    ensures |DataIn(Framed(margin, lines, trail))| <= |DataIn(lines)|
  {
    var x := [margin + lines[0]] + lines[1..];
    MarginedData(margin, lines);
    TrailedData(x, trail);
    MarginedLine(margin, lines[0]);
    assert |lines| > 1 ==> x[|x| - 1] == last;
  }

  // Names: the last line that names the event, and the value it gives.
  lemma EventLineIs(lines: seq<string>, i: int)
    requires -1 <= i < |lines| && (i >= 0 ==> Field(lines[i]) == "event")
    requires forall k | i < k < |lines| :: Field(lines[k]) != "event"
    ensures EventLine(lines) == i
  {
  }

  lemma SameName(x: seq<string>, lines: seq<string>, i: nat)
    requires i == EventLine(lines) && i < |x| && x[i] == lines[i]
    requires forall k | i < k < |x| :: Field(x[k]) != "event"
    ensures EventName(x) == EventName(lines)
  {
    EventLineIs(x, i);
  }

  lemma UnnamedStays(margin: string, lines: seq<string>, trail: string, x: seq<string>, k: nat)
    requires lines != [] && x == Framed(margin, lines, trail) && AllSpace(margin) && AllSpace(trail)
    requires 0 < k < |x| && Field(lines[k]) != "event"
    ensures Field(x[k]) != "event"
  {
    FramedAt(margin, lines, trail, x);
    TrailedLine(lines[k], trail);
  }

  // No line but the last can be hurt by the trail, none but the first by the margin.
  lemma UnhurtName(margin: string, lines: seq<string>, trail: string, x: seq<string>, i: nat)
    requires lines != [] && x == Framed(margin, lines, trail) && AllSpace(margin) && AllSpace(trail)
    requires i == EventLine(lines) && i < |lines| - 1 && !(i == 0 && margin != "")
    ensures EventName(x) == EventName(lines)
  {
    FramedAt(margin, lines, trail, x);
    forall k | i < k < |x| ensures Field(x[k]) != "event" { UnnamedStays(margin, lines, trail, x, k); }
    SameName(x, lines, i);
  }

  lemma LostFirstName(margin: string, lines: seq<string>, trail: string, x: seq<string>)
    requires lines != [] && x == Framed(margin, lines, trail) && AllSpace(margin) && AllSpace(trail)
    requires EventLine(lines) <= 0 && (EventLine(lines) == 0 ==> margin != "")
    ensures EventLine(x) == -1
  {
    var n := |lines| - 1;
    FramedAt(margin, lines, trail, x);
    MarginedLine(margin, lines[0]);
    TrailedLine(lines[n], trail);
    if n == 0 { TrailedLine(margin + lines[0], trail); }
    EventLineIs(x, -1);
  }

  // The name is on the last line, behind the margin if that is the first.
  lemma LastName(margin: string, lines: seq<string>, trail: string, x: seq<string>, n: nat)
    requires lines != [] && x == Framed(margin, lines, trail) && AllSpace(margin) && AllSpace(trail)
    requires n == |lines| - 1 == EventLine(lines) && !(n == 0 && margin != "") && Field(lines[n] + trail) == "event"
    ensures EventName(x) == EventName(lines) <==> !Spoils(trail, lines[n])
  {
    FramedAt(margin, lines, trail, x);
    TrailedLine(lines[n], trail);
    EventLineIs(x, n);
  }

  lemma NameBefore(margin: string, lines: seq<string>, trail: string, x: seq<string>, n: nat)
    requires lines != [] && x == Framed(margin, lines, trail) && AllSpace(margin) && AllSpace(trail)
    requires n == |lines| - 1 && !(n == 0 && margin != "") && Field(lines[n] + trail) != "event"
    ensures var j := EventLine(lines[..n]);
            EventName(x) == if j == -1 || (j == 0 && margin != "") then None else Some(FieldValue(lines[j]))
  {
    var j := EventLine(lines[..n]);
    FramedAt(margin, lines, trail, x);
    assert forall k | 0 <= k < n :: lines[..n][k] == lines[k];
    MarginedLine(margin, lines[0]);
    EventLineIs(x, if j == 0 && margin != "" then -1 else j);
  }

  lemma KeepsEventNameExactly(margin: string, lines: seq<string>, trail: string, x: seq<string>)
    requires lines != [] && x == Framed(margin, lines, trail) && AllSpace(margin) && AllSpace(trail)
    ensures EventName(x) == EventName(lines) <==> KeepsEventName(margin, lines, trail)
  {
    var n, i := |lines| - 1, EventLine(lines);
    if i == -1 || (i == 0 && margin != "") {
      LostFirstName(margin, lines, trail, x);
    } else if i < n {
      UnhurtName(margin, lines, trail, x, i);
    } else {
      TrailedLine(lines[n], trail);
      if Field(lines[n] + trail) == "event" {
        LastName(margin, lines, trail, x, n);
      } else {
        NameBefore(margin, lines, trail, x, n);
      }
    }
  }

  lemma FramedIsHarmlessExactly(margin: string, lines: seq<string>, trail: string, x: seq<string>)
    requires lines != [] && x == Framed(margin, lines, trail) && AllSpace(margin) && AllSpace(trail)
    requires forall k | 0 <= k < |lines| :: IsClean(lines[k])
    requires forall k | 0 <= k < |x| :: IsClean(x[k])
    ensures Finish(WithLines(NO_FIELDS, x)) == Finish(WithLines(NO_FIELDS, lines))
       <==> || DataIn(lines) == []
            || (&& !(margin != "" && Field(lines[0]) == "data")
                && !(Spoils(trail, lines[|lines| - 1]) && Field(lines[|lines| - 1]) == "data")
                && KeepsEventName(margin, lines, trail))
  {
    Collected(lines);
    Collected(x);
    DataLacksLf(lines);
    DataLacksLf(x);
    SameEventExactly(Fields(EventName(x), DataIn(x)), Fields(EventName(lines), DataIn(lines)));
    FramedData(margin, lines, trail, lines[|lines| - 1]);
    KeepsEventNameExactly(margin, lines, trail, x);
  }

  lemma {:induction false} DataLacksLf(lines: seq<string>)
    requires forall k | 0 <= k < |lines| :: Lacks(lines[k], '\n')
    ensures forall k | 0 <= k < |DataIn(lines)| :: Lacks(DataIn(lines)[k], '\n')
  {
    if lines != [] { DataLacksLf(lines[..|lines| - 1]); }
  }

  predicate IsClean(line: string) { Lacks(line, '\n') && NoCr(line) }

  lemma {:induction false} PartsAreClean(s: string)
    requires NoCr(s)
    ensures forall k | 0 <= k < |Split(s, '\n')| :: IsClean(Split(s, '\n')[k])
    decreases |s|
  {
    var found, front, rest := CutFirst(s, '\n');
    if found {
      NoCrInParts(s, front + ['\n'], rest);
      NoCrInParts(front + ['\n'], front, ['\n']);
      PartsAreClean(rest);
    }
  }

  lemma FramedIsClean(margin: string, lines: seq<string>, trail: string)
    requires lines != [] && IsClean(margin) && IsClean(trail) && forall k | 0 <= k < |lines| :: IsClean(lines[k])
    ensures var x := Framed(margin, lines, trail); forall k | 0 <= k < |x| :: IsClean(x[k])
  {
    FramedAt(margin, lines, trail, Framed(margin, lines, trail));
  }

  lemma BlockPartsAreClean(block: string)
    requires NoCr(block)
    ensures NoCr(Trim(block))
    ensures IsClean(Margin(block)) && AllSpace(Margin(block)) && IsClean(Trail(block)) && AllSpace(Trail(block))
  {
    var before, rest, after := SpaceBefore(block), TrimStart(block), SpaceAfter(TrimStart(block));
    SpaceBeforeIs(block);
    SpaceAfterIs(rest);
    NoCrInParts(block, before, rest);
    NoCrInParts(rest, Trim(block), after);
    PartsAreClean(before);
    PartsAreClean(after);
    SplitOfSpace(before);
    SplitOfSpace(after);
  }

  lemma NoCrInParts(s: string, a: string, b: string)
    requires NoCr(s) && s == a + b
    ensures NoCr(a) && NoCr(b)
  {
    forall k | 0 <= k < |a| ensures a[k] != '\r' { assert s[k] == a[k]; }
    forall k | 0 <= k < |b| ensures b[k] != '\r' { assert s[|a| + k] == b[k]; }
  }

  // Trimming a block leaves its event alone exactly when it is harmless.
  lemma TrimIsHarmlessExactly(block: string)
    requires NoCr(block)
    ensures EventOf(Trim(block)) == EventOf(block) <==> TrimIsHarmless(block)
  {
    var lines, margin, trail := Split(Trim(block), '\n'), Margin(block), Trail(block);
    BlockPartsAreClean(block);
    PartsAreClean(Trim(block));
    FramedIsClean(margin, lines, trail);
    BlockLines(block);
    FramedIsHarmlessExactly(margin, lines, trail, Framed(margin, lines, trail));
    NoDataExactly(lines);
  }

  // --------------------------------------------------------------------
  // One more line end
  // --------------------------------------------------------------------

  lemma {:induction false} TrimStartDrops(s: string, c: char)
    requires IsSpace(c)
    ensures TrimStart(s + [c]) == if TrimStart(s) == "" then "" else TrimStart(s) + [c]
  {
    if s == "" {
      assert [c][1..] == "";
    } else if IsSpace(s[0]) {
      assert (s + [c])[1..] == s[1..] + [c];
      TrimStartDrops(s[1..], c);
    }
  }

  lemma TrimDrops(s: string, c: char)
    requires IsSpace(c)
    ensures Trim(s + [c]) == Trim(s)
  {
    TrimStartDrops(s, c);
    TrimEndDrops(TrimStart(s), c);
  }

  lemma DrainMore(n: string, rest: string, more: string)
    requires rest == Drain(n).rest
    ensures Drain(n + more) == Drained(Drain(n).blocks + Drain(rest + more).blocks, Drain(rest + more).rest)
  {
    TakenAndRest(n);
    Reassociate(Taken(n), rest, more);
    DrainResumes(n, rest + more);
  }

  lemma UnbrokenStays(s: string)
    requires forall k :: !BreakAt(s, k)
    ensures Drain(s) == Drained([], s)
  {
    assert !BreakAt(s, FirstBreak(s));
  }

  lemma ExtraCr(n: string, rest: string)
    requires rest == Drain(n).rest
    ensures Drain(n + "\r") == Drained(Drain(n).blocks, rest + "\r")
  {
    TakenAndRest(n);
    DrainMore(n, rest, "\r");
    forall k ensures !BreakAt(rest + "\r", k) { assert !BreakAt(rest, k); }
    UnbrokenStays(rest + "\r");
    assert Drain(n).blocks + [] == Drain(n).blocks;
  }

  lemma ExtraLfEndsBlock(rest: string, block: string)
    requires rest == block + "\n" && forall k :: !BreakAt(rest, k)
    ensures Drain(rest + "\n") == Drained([block], "")
  {
    var s, k := rest + "\n", |block|;
    assert forall j | 0 <= j < |rest| :: s[j] == rest[j];
    assert BreakAt(s, k);
    forall j | 0 <= j < k ensures !BreakAt(s, j) { assert !BreakAt(rest, j); }
    assert FirstBreak(s) == k;
    assert s[..k] == block && s[k + 2..] == "";
    UnbrokenStays("");
    assert [block] + [] == [block];
  }

  // What a line end behind the rest dispatches.
  function EventBehindLf(rest: string): seq<SseEvent> {
    if rest != "" && rest[|rest| - 1] == '\n' then AsSeq(EventOf(rest[..|rest| - 1])) else []
  }

  lemma ExtraLfEnds(rest: string, block: string)
    requires rest == block + "\n" && forall k :: !BreakAt(rest, k)
    ensures EventsOf(Drain(rest + "\n").blocks) == AsSeq(EventOf(block))
  {
    ExtraLfEndsBlock(rest, block);
    EventsOfOne(block, [block]);
  }

  lemma ExtraLfStays(rest: string)
    requires (rest == "" || rest[|rest| - 1] != '\n') && forall k :: !BreakAt(rest, k)
    ensures Drain(rest + "\n") == Drained([], rest + "\n")
  {
    forall k ensures !BreakAt(rest + "\n", k) { assert !BreakAt(rest, k); }
    UnbrokenStays(rest + "\n");
  }

  lemma ExtraLfBlocks(rest: string)
    requires forall k :: !BreakAt(rest, k)
    ensures EventsOf(Drain(rest + "\n").blocks) == EventBehindLf(rest)
  {
    if rest != "" && rest[|rest| - 1] == '\n' {
      FrontAndLast(rest, |rest| - 1);
      ExtraLfEnds(rest, rest[..|rest| - 1]);
    } else {
      ExtraLfStays(rest);
    }
  }

  lemma ExtraLf(n: string, rest: string)
    requires rest == Drain(n).rest
    ensures EventsOf(Drain(n + "\n").blocks) == EventsOf(Drain(n).blocks) + EventBehindLf(rest)
  {
    TakenAndRest(n);
    DrainMore(n, rest, "\n");
    ExtraLfBlocks(rest);
    EventsConcat(Drain(n).blocks, Drain(rest + "\n").blocks);
  }

  // --------------------------------------------------------------------
  // The parser against the reference
  // --------------------------------------------------------------------

  // The parser gives the reference's events of the text before a final CR, then
  // whatever it makes of the unfinished rest.
  lemma ParserIsReferencePlusTail(text: string)
    ensures Events(text) == Interpret(BeforeCr(text), FRESH) + Tail(Unfinished(text))
  {
    var n := Normalize(BeforeCr(text));
    NormalizeHasNoCr(BeforeCr(text));
    NormalizeKeepsMeaning(BeforeCr(text), n, FRESH);
    BlocksAgree(n);
    if EndsInCr(text) {
      ExtraCr(n, Unfinished(text));
      TrimDrops(Unfinished(text), '\r');
    }
  }

  // A text and the text with one more CR, as the reference sees them.
  lemma FinalCrNormalizes(text: string, body: string)
    requires text == body + "\r"
    ensures Normalize(text) == Normalize(body) + "\n"
  {
    NormalizeConcat(body, "\r");
    LoneCr();
  }

  lemma ReferenceIsBlocks(text: string, n: string)
    requires n == Normalize(text)
    ensures Interpret(text, FRESH) == EventsOf(Drain(n).blocks)
  {
    NormalizeHasNoCr(text);
    NormalizeKeepsMeaning(text, n, FRESH);
    BlocksAgree(n);
  }

  lemma ReferenceAfterCr(text: string, body: string, rest: string)
    requires text == body + "\r" && rest == Drain(Normalize(body)).rest
    ensures Interpret(text, FRESH) == Interpret(body, FRESH) + EventBehindLf(rest)
  {
    var n := Normalize(body);
    FinalCrNormalizes(text, body);
    ReferenceIsBlocks(text, n + "\n");
    ReferenceIsBlocks(body, n);
    ExtraLf(n, rest);
  }

  // What the standard makes of it: nothing more, unless the final CR is a blank line.
  lemma ReferenceWhenClosed(text: string, block: string)
    requires IsClosedByCr(text) && block == LastBlock(text)
    ensures Interpret(text, FRESH) == Interpret(BeforeCr(text), FRESH) + AsSeq(EventOf(block))
  {
    ReferenceAfterCr(text, BeforeCr(text), Unfinished(text));
  }

  lemma ReferenceWhenStopped(text: string)
    requires !IsClosedByCr(text)
    ensures Interpret(text, FRESH) == Interpret(BeforeCr(text), FRESH)
  {
    if EndsInCr(text) { ReferenceAfterCr(text, BeforeCr(text), Unfinished(text)); }
  }

  lemma LoneCr()
    ensures Normalize("\r") == "\n"
  {
    assert "\r"[1..] == "";
  }

  lemma TailIsEvent(rest: string)
    ensures Tail(rest) == AsSeq(EventOf(Trim(rest)))
  {
    if Trim(rest) == "" {
      SplitWhole("", '\n');
      WithOneLine(NO_FIELDS, "");
    }
  }

  lemma UnfinishedHasNoCr(text: string)
    ensures NoCr(Unfinished(text))
  {
    var n := Normalize(BeforeCr(text));
    NormalizeHasNoCr(BeforeCr(text));
    TakenAndRest(n);
    NoCrInParts(n, Taken(n), Unfinished(text));
  }

  lemma NoTailExactly(rest: string)
    requires NoCr(rest)
    ensures Tail(rest) == [] <==> !HasDataLine(Trim(rest))
  {
    TailIsEvent(rest);
    BlockPartsAreClean(rest);
    PartsAreClean(Trim(rest));
    Collected(Split(Trim(rest), '\n'));
    NoDataExactly(Split(Trim(rest), '\n'));
  }

  lemma ClosedTail(rest: string, block: string)
    requires rest == block + ['\n'] && NoCr(rest)
    ensures Tail(rest) == AsSeq(EventOf(Trim(block))) && NoCr(block)
  {
    NoCrInParts(rest, block, ['\n']);
    TailIsEvent(rest);
    TrimDrops(block, '\n');
  }

  lemma LastBlockIsRest(text: string, block: string)
    requires IsClosedByCr(text) && block == LastBlock(text)
    ensures Unfinished(text) == block + ['\n']
  {
  }

  lemma AgreesWhenClosed(text: string, block: string)
    requires IsClosedByCr(text) && block == LastBlock(text)
    ensures Events(text) == Interpret(text, FRESH) <==> EventOf(Trim(block)) == EventOf(block)
    ensures NoCr(block)
  {
    ParserIsReferencePlusTail(text);
    ReferenceWhenClosed(text, block);
    UnfinishedHasNoCr(text);
    LastBlockIsRest(text, block);
    ClosedTail(Unfinished(text), block);
    SameEventBehind(Interpret(BeforeCr(text), FRESH), EventOf(Trim(block)), EventOf(block));
  }

  lemma AgreesWhenStopped(text: string)
    requires !IsClosedByCr(text)
    ensures Events(text) == Interpret(text, FRESH) <==> Tail(Unfinished(text)) == []
  {
    ParserIsReferencePlusTail(text);
    ReferenceWhenStopped(text);
  }

  // For every text: where the stream just stops, the two agree exactly when no line of
  // the trimmed rest is a data line; where a final CR ends the last block, exactly when
  // trimming that block is harmless.
  lemma AgreesExactly(text: string)
    ensures Events(text) == Interpret(text, FRESH)
       <==> if IsClosedByCr(text) then TrimIsHarmless(LastBlock(text)) else !HasDataLine(Trim(Unfinished(text)))
  {
    if IsClosedByCr(text) {
      AgreesWhenClosed(text, LastBlock(text));
      TrimIsHarmlessExactly(LastBlock(text));
    } else {
      AgreesWhenStopped(text);
      UnfinishedHasNoCr(text);
      NoTailExactly(Unfinished(text));
    }
  }

  lemma SameEventBehind(events: seq<SseEvent>, a: Option<SseEvent>, b: Option<SseEvent>)
    ensures events + AsSeq(a) == events + AsSeq(b) <==> a == b
  {
    assert (events + AsSeq(a))[|events|..] == AsSeq(a) && (events + AsSeq(b))[|events|..] == AsSeq(b);
    assert a.Some? ==> AsSeq(a)[0] == a.value;
    assert b.Some? ==> AsSeq(b)[0] == b.value;
  }

  predicate EndsInBlankLine(text: string) {
    var n := Normalize(text);
    |n| >= 2 && n[|n| - 2] == '\n' && n[|n| - 1] == '\n'
  }

  // A stream that ends with a blank line is read exactly as the standard reads it,
  // unless that line is a lone CR and the block before it has white space at an end.
  lemma TerminatedStreamsAgree(text: string)
    requires EndsInBlankLine(text)
    requires IsClosedByCr(text) ==> Trim(LastBlock(text)) == LastBlock(text)
    ensures Events(text) == Interpret(text, FRESH)
  {
    if IsClosedByCr(text) {
      AgreesWhenClosed(text, LastBlock(text));
    } else {
      AgreesWhenStopped(text);
      BlankRest(text, Unfinished(text));
    }
  }

  lemma BlankRestAfterCr(text: string, body: string, n: string, rest: string)
    requires EndsInBlankLine(text) && text == body + "\r" && n == Normalize(body) && rest == Drain(n).rest
    requires rest == "" || rest[|rest| - 1] != '\n'
    ensures rest == ""
  {
    TakenAndRest(n);
    FinalCrNormalizes(text, body);
    RestOfLine(Normalize(text), n, Taken(n), rest);
  }

  lemma BlankRestOf(n: string, rest: string)
    requires |n| >= 2 && n[|n| - 2] == '\n' && n[|n| - 1] == '\n' && rest == Drain(n).rest
    ensures rest == "" || rest == "\n"
  {
    TakenAndRest(n);
    ShortRest(n, Taken(n), rest);
  }

  lemma BlankRest(text: string, rest: string)
    requires EndsInBlankLine(text) && !IsClosedByCr(text) && rest == Unfinished(text)
    ensures Tail(rest) == []
  {
    if EndsInCr(text) {
      BlankRestAfterCr(text, BeforeCr(text), Normalize(BeforeCr(text)), rest);
    } else {
      BlankRestOf(Normalize(text), rest);
    }
    BlankHasNoTail(rest);
  }

  lemma RestOfLine(m: string, n: string, taken: string, rest: string)
    requires m == n + "\n" && |m| >= 2 && m[|m| - 2] == '\n'
    requires n == taken + rest && (rest == "" || rest[|rest| - 1] != '\n')
    ensures rest == ""
  {
    assert n[|n| - 1] == m[|m| - 2];
  }

  lemma ShortRest(n: string, taken: string, rest: string)
    requires |n| >= 2 && n[|n| - 2] == '\n' && n[|n| - 1] == '\n'
    requires n == taken + rest && forall k :: !BreakAt(rest, k)
    ensures rest == "" || rest == "\n"
  {
    assert !BreakAt(rest, |rest| - 2);
  }

  lemma BlankHasNoTail(rest: string)
    requires rest == "" || rest == "\n"
    ensures Tail(rest) == []
  {
    if rest == "\n" { assert "\n"[1..] == ""; }
  }

  // One line, with no space at its ends.
  ghost predicate IsPlainLine(line: string) {
    && line != "" && !IsSpace(line[0]) && !IsSpace(line[|line| - 1])
    && forall k | 0 <= k < |line| :: line[k] != '\n' && line[k] != '\r'
  }

  // The reference drops an event the stream ends inside of; the parser emits it.
  lemma UnfinishedEventIsEmitted(line: string, e: SseEvent)
    requires IsPlainLine(line) && EventOf(line) == Some(e)
    ensures Events(line) == [e] && Interpret(line, FRESH) == []
  {
    NormalizeKeepsClean(line);
    NoBreakNoEvent(line, FRESH);
    UnbrokenIsTail(line);
    assert Trim(line) == line;
  }

  lemma UnbrokenIsTail(text: string)
    requires NormalizePending(text) == text && forall k :: !BreakAt(text, k)
    ensures Events(text) == Tail(text)
  {
    assert Drain(text) == Drained([], text) by { assert !BreakAt(text, FirstBreak(text)); }
  }

  lemma OneLineEvent(line: string)
    requires line != "" && forall k | 0 <= k < |line| :: line[k] != '\n' && line[k] != '\r'
    ensures EventOf(line) == Finish(WithLine(NO_FIELDS, line))
  {
    LineEndAt(line, |line|);
    SplitFirstLine(line, |line|);
    WithOneLine(NO_FIELDS, line);
  }

  lemma DataColon(line: string, value: string)
    requires line == "data:" + value
    ensures IndexOf(line, ":", 0) == 4
  {
    FirstChar(line, ':');
    assert line[0] == 'd' && line[1] == 'a' && line[2] == 't' && line[3] == 'a' && line[4] == ':';
  }

  lemma FinishOne(value: string)
    ensures Finish(Fields(None, [value])) == Some(SseEvent(None, value))
  {
    assert Join([value], "\n") == value;
  }

  lemma OneDataLine(line: string, value: string)
    requires line == "data:" + value && value != "" && value[0] != ' '
    requires forall k | 0 <= k < |value| :: value[k] != '\n' && value[k] != '\r'
    ensures EventOf(line) == Some(SseEvent(None, value))
  {
    assert forall k | 5 <= k < |line| :: line[k] == value[k - 5];
    OneLineEvent(line);
    DataColon(line, value);
    DataFieldOf(line, value);
    FinishOne(value);
  }

  lemma DataFieldOf(line: string, value: string)
    requires line == "data:" + value && IndexOf(line, ":", 0) == 4 && value != "" && value[0] != ' '
    ensures WithLine(NO_FIELDS, line) == Fields(None, [value])
  {
    assert line[..4] == "data" && line[5..] == value;
  }

  // A stream whose last blank line is a lone CR goes through the trimmed tail, so
  // its last line loses a trailing space that the reference keeps: "data:x \n\r"
  // gives "x" for one and "x " for the other (OneDataLine).
  lemma FinalCrTrimsTheEvent(line: string, e: SseEvent, kept: SseEvent)
    requires IsPlainLine(line) && EventOf(line) == Some(e) && EventOf(line + " ") == Some(kept)
    ensures Events(line + " \n\r") == [e]
    ensures Interpret(line + " \n\r", FRESH) == [kept]
  {
    FinalCrIsTail(line);
    TrimsTo(line);
    FinalCrReference(line);
  }

  lemma FinalCrIsTail(line: string)
    requires forall k | 0 <= k < |line| :: line[k] != '\n' && line[k] != '\r'
    ensures Events(line + " \n\r") == Tail(line + " \n\r")
  {
    var text := line + " \n\r";
    assert text[..|text| - 1] == line + " \n";
    NormalizeKeepsClean(line + " \n");
    UnbrokenIsTail(text);
  }

  lemma FinalCrReference(line: string)
    requires IsPlainLine(line)
    ensures Interpret(line + " \n\r", FRESH) == AsSeq(EventOf(line + " "))
  {
    var block := line + " ";
    var text := line + " \n\r";
    assert text == block + "\n\r";
    NormalizeCleanFront(block, "\n\r");
    LfCr();
    NormalizeKeepsMeaning(text, Normalize(text), FRESH);
    assert Normalize(text) == block + "\n" + ("\n" + "");
    BlockAgrees(Normalize(text), block, Split(block, '\n'), "", FRESH, NO_FIELDS);
    assert Interpret("", FRESH) == [];
  }

  lemma LfCr()
    ensures Normalize("\n\r") == "\n\n"
  {
    assert "\n\r"[1..] == "\r" && "\r"[1..] == "";
  }

  lemma TrimsTo(line: string)
    requires line != "" && !IsSpace(line[0]) && !IsSpace(line[|line| - 1])
    ensures Trim(line + " \n\r") == line
  {
    TrimEndDrops(line, ' ');
    TrimEndDrops(line + " ", '\n');
    TrimEndDrops(line + " \n", '\r');
    assert line + " " + ['\n'] == line + " \n" && line + " \n" + ['\r'] == line + " \n\r";
  }

  lemma TrimEndDrops(s: string, c: char)
    requires IsSpace(c)
    ensures TrimEnd(s + [c]) == TrimEnd(s)
  {
    assert (s + [c])[..|s + [c]| - 1] == s;
  }
}
