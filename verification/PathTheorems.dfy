// The parser accepts exactly the grammar, and printing is undone by parsing.
module PathTheorems {
  import opened Basics
  import opened Text
  import opened Numerals
  import opened PathGrammar

  // --------------------------------------------------------------------
  // Every writing is parsed
  // --------------------------------------------------------------------

  lemma {:induction false} BareLengthIs(s: string, key: string, rest: string)
    requires s == key + rest && AllBare(key) && (rest == "" || !IsBareKeyChar(rest[0]))
    ensures BareLength(s) == |key| && s[..|key|] == key && s[|key|..] == rest
  {
    if key != "" { BareLengthIs(s[1..], key[1..], rest); }
  }

  lemma {:induction false} QuotedIsRead(s: string, key: string, rest: string, read: string)
    requires s == Escape(key) + ("\"" + rest)
    ensures ReadQuoted(s, read) == Ok(Scanned(read + key, rest))
    decreases |key|
  {
    if key == "" {
      assert s[1..] == rest && read + key == read;
    } else {
      var c, tail := key[0], Escape(key[1..]) + ("\"" + rest);
      var head := if c == '\\' || c == '"' then ['\\', c] else [c];
      Reassociate(head, Escape(key[1..]), "\"" + rest);
      Cut(s, head, tail);
      QuotedIsRead(tail, key[1..], rest, read + [c]);
      Reassociate(read, [c], key[1..]);
      assert [c] + key[1..] == key;
    }
  }

  // A bracketed form, its opening bracket apart.
  function Inside(f: Form): string
    requires !f.Bare?
  {
    Written(f)[1..]
  }

  lemma QuotedBracketIsRead(s: string, key: string, rest: string)
    requires LegalKey(key) && s == "\"" + (Escape(key) + ("\"" + ("]" + rest)))
    ensures ReadBracket(s) == Ok(Segment(Key(key), rest))
  {
    var inner, after := Escape(key) + ("\"" + ("]" + rest)), "]" + rest;
    assert s[1..] == inner && s[0] == '"';
    QuotedIsRead(inner, key, after, "");
    assert after[1..] == rest && after[0] == ']' && "" + key == key;
  }

  lemma DigitsBracketIsRead(s: string, digits: string, rest: string)
    requires ValidForm(Digits(digits)) && s == digits + ("]" + rest)
    ensures ReadBracket(s) == Ok(Segment(Index(DigitsValue(digits)), rest))
  {
    DigitsLengthIs(s, digits, "]" + rest);
    assert IsDigit(digits[0]) && s[0] == digits[0];
    assert s[|digits|] == ']' && s[|digits| + 1..] == rest;
  }

  lemma BracketIsRead(s: string, f: Form, rest: string)
    requires ValidForm(f) && !f.Bare? && s == Inside(f) + rest
    ensures ReadBracket(s) == Ok(Segment(PartOf(f), rest))
  {
    match f
    case Quoted(key) =>
      InsideQuoted(key, rest);
      QuotedBracketIsRead(s, key, rest);
    case Digits(digits) =>
      InsideDigits(digits, rest);
      DigitsBracketIsRead(s, digits, rest);
  }

  lemma Nested(q: string, e: string, b: string, rest: string)
    ensures (q + e + (q + b)) + rest == q + (e + (q + (b + rest)))
  {
    Reassociate(q + e, q + b, rest);
    Reassociate(q, b, rest);
    Reassociate(q, e, q + (b + rest));
  }

  lemma InsideQuoted(key: string, rest: string)
    ensures Inside(Quoted(key)) + rest == "\"" + (Escape(key) + ("\"" + ("]" + rest)))
  {
    assert Inside(Quoted(key)) == "\"" + Escape(key) + ("\"" + "]");
    Nested("\"", Escape(key), "]", rest);
  }

  lemma InsideDigits(digits: string, rest: string)
    ensures Inside(Digits(digits)) + rest == digits + ("]" + rest)
  {
    assert Inside(Digits(digits)) == digits + "]";
    Reassociate(digits, "]", rest);
  }

  lemma ContinuedStart(forms: seq<Form>)
    ensures MayFollowBracket(Continued(forms))
    ensures Continued(forms) == "" || !IsBareKeyChar(Continued(forms)[0])
  {
  }

  // One form at a point where it may stand.
  lemma FormIsParsed(s: string, f: Form, next: string, parts: seq<Part>)
    requires ValidForm(f) && s == Written(f) + next && |parts| + 1 <= MAX_PARTS
    requires MayFollowBracket(next) && (next == "" || !IsBareKeyChar(next[0]))
    ensures f.Bare? || parts == [] ==> ParseRest(s, parts, true) == ParseRest(next, parts + [PartOf(f)], false)
    ensures !f.Bare? ==> ParseRest(s, parts, false) == ParseRest(next, parts + [PartOf(f)], false)
  {
    if f.Bare? {
      BareLengthIs(s, f.key, next);
      assert IsBareKeyChar(f.key[0]) && s[0] == f.key[0];
    } else {
      var inner := Inside(f) + next;
      assert s[0] == '[' && s[1..] == inner;
      BracketIsRead(inner, f, next);
    }
  }

  lemma DotIsParsed(s: string, t: string, parts: seq<Part>)
    requires s == "." + t
    ensures ParseRest(s, parts, false) == ParseRest(t, parts, true)
  {
    assert s[1..] == t;
  }

  lemma MovePart(parts: seq<Part>, part: Part, more: seq<Part>)
    ensures parts + [part] + more == parts + ([part] + more)
  {
  }

  lemma {:induction false} ContinuedIsParsed(s: string, forms: seq<Form>, parts: seq<Part>)
    requires ValidForms(forms) && s == Continued(forms)
    requires parts != [] && |parts| + |forms| <= MAX_PARTS
    ensures ParseRest(s, parts, false) == Ok(parts + PartsOf(forms))
    decreases |forms|
  {
    if forms == [] {
      assert parts + PartsOf(forms) == parts;
    } else {
      var f, rest := forms[0], forms[1..];
      var next := Continued(rest);
      ContinuedIsParsed(next, rest, parts + [PartOf(f)]);
      OneMoreIsParsed(s, f, rest, next, parts);
      MovePart(parts, PartOf(f), PartsOf(rest));
    }
  }

  lemma OneMoreIsParsed(s: string, f: Form, rest: seq<Form>, next: string, parts: seq<Part>)
    requires ValidForm(f) && next == Continued(rest) && s == (if f.Bare? then "." else "") + Written(f) + next
    requires parts != [] && |parts| + 1 <= MAX_PARTS
    ensures ParseRest(s, parts, false) == ParseRest(next, parts + [PartOf(f)], false)
  {
    var w := Written(f);
    var t := w + next;
    ContinuedStart(rest);
    FormIsParsed(t, f, next, parts);
    if f.Bare? {
      Reassociate(".", w, next);
      DotIsParsed(s, t, parts);
    } else {
      NothingInFront(w, next);
    }
  }

  lemma NothingInFront(w: string, next: string)
    ensures "" + w + next == w + next
  {
    assert "" + w == w;
  }

  lemma FirstFormIsParsed(path: string, f: Form, rest: seq<Form>, next: string)
    requires ValidForm(f) && ValidForms(rest) && next == Continued(rest) && path == Written(f) + next
    requires 1 + |rest| <= MAX_PARTS
    ensures ParseRest(path, [], true) == Ok([PartOf(f)] + PartsOf(rest))
  {
    ContinuedStart(rest);
    FormIsParsed(path, f, next, []);
    ContinuedIsParsed(next, rest, [] + [PartOf(f)]);
    assert [] + [PartOf(f)] == [PartOf(f)];
  }

  lemma EveryWritingIsParsed(path: string, forms: seq<Form>)
    requires ValidForms(forms) && PathText(forms) == path && |path| <= MAX_LENGTH && |forms| <= MAX_PARTS
    ensures Parse(path) == Ok(PartsOf(forms))
  {
    if forms != [] {
      FirstFormIsParsed(path, forms[0], forms[1..], Continued(forms[1..]));
    }
  }

  // --------------------------------------------------------------------
  // Only writings are parsed
  // --------------------------------------------------------------------

  lemma {:induction false} QuotedWasWritten(s: string, read: string, q: Scanned) returns (key: string)
    requires ReadQuoted(s, read) == Ok(q)
    ensures q.key == read + key && s == Escape(key) + ("\"" + q.rest)
    decreases |s|
  {
    if s[0] == '"' {
      key := "";
      assert s == "\"" + s[1..] && read + key == read;
    } else {
      var n := if s[0] == '\\' then 2 else 1;
      var head, c := s[..n], s[n - 1];
      var tail := QuotedWasWritten(s[n..], read + [c], q);
      key := [c] + tail;
      assert key[1..] == tail && read + [c] + tail == read + key;
      assert s == head + s[n..] && Escape(key) == head + Escape(tail);
      Reassociate(head, Escape(tail), "\"" + q.rest);
    }
  }

  lemma BracketWasWritten(s: string, b: Segment) returns (f: Form)
    requires ReadBracket(s) == Ok(b)
    ensures ValidForm(f) && !f.Bare? && PartOf(f) == b.part && s == Inside(f) + b.rest
  {
    if s != "" && s[0] == '"' {
      f := QuotedBracketWasWritten(s, b);
    } else {
      f := DigitsBracketWasWritten(s, b);
    }
  }

  lemma DigitsBracketWasWritten(s: string, b: Segment) returns (f: Form)
    requires ReadBracket(s) == Ok(b) && (s == "" || s[0] != '"')
    ensures ValidForm(f) && f.Digits? && PartOf(f) == b.part && s == Inside(f) + b.rest
  {
    var n := DigitsLength(s);
    f := Digits(s[..n]);
    DigitsText(s, n, b.rest);
  }

  lemma TailAt(s: string, n: nat)
    requires n < |s|
    ensures s[n..] == [s[n]] + s[n + 1..] && s == s[..n] + s[n..]
  {
  }

  lemma DigitsText(s: string, n: nat, rest: string)
    requires n < |s| && s[n] == ']' && rest == s[n + 1..]
    ensures s == Inside(Digits(s[..n])) + rest
  {
    InsideDigits(s[..n], rest);
    TailAt(s, n);
  }

  lemma QuotedBracketWasWritten(s: string, b: Segment) returns (f: Form)
    requires ReadBracket(s) == Ok(b) && s != "" && s[0] == '"'
    ensures ValidForm(f) && f.Quoted? && PartOf(f) == b.part && s == Inside(f) + b.rest
  {
    var q := ReadQuoted(s[1..], "").value;
    var key := QuotedWasWritten(s[1..], "", q);
    f := Quoted(key);
    QuotedText(s, key, q.rest, b.rest);
    assert "" + key == key;
  }

  lemma QuotedText(s: string, key: string, after: string, rest: string)
    requires s != "" && s[0] == '"' && s[1..] == Escape(key) + ("\"" + after)
    requires after != "" && after[0] == ']' && rest == after[1..]
    ensures s == Inside(Quoted(key)) + rest
  {
    InsideQuoted(key, rest);
    assert after == "]" + rest;
    assert s == "\"" + s[1..];
  }

  // What is left to read, given where the parser stands.
  ghost predicate Reads(s: string, parts: seq<Part>, expectSegment: bool, forms: seq<Form>) {
    if !expectSegment then s == Continued(forms)
    else s == PathText(forms) && (parts != [] ==> forms != [] && forms[0].Bare?)
  }

  lemma {:induction false} OnlyWritingsAreParsed(s: string, parts: seq<Part>, expectSegment: bool, result: seq<Part>)
    returns (forms: seq<Form>)
    requires ParseRest(s, parts, expectSegment) == Ok(result) && |parts| <= MAX_PARTS
          && (!expectSegment ==> parts != [])
    ensures ValidForms(forms) && Reads(s, parts, expectSegment, forms)
    ensures result == parts + PartsOf(forms) && |parts| + |forms| <= MAX_PARTS
    decreases |s|
  {
    if s == "" {
      forms := [];
      assert parts + PartsOf(forms) == parts;
    } else if s[0] == '.' {
      forms := OnlyWritingsAreParsed(s[1..], parts, true, result);
      DotThenForms(s, forms);
    } else {
      var f, rest := OneFormWasWritten(s, parts, expectSegment);
      var more := OnlyWritingsAreParsed(rest, parts + [PartOf(f)], false, result);
      forms := [f] + more;
      assert forms[1..] == more;
      MovePart(parts, PartOf(f), PartsOf(more));
      FormThenForms(s, f, more, rest);
    }
  }

  lemma DotThenForms(s: string, forms: seq<Form>)
    requires s != "" && s[0] == '.' && forms != [] && forms[0].Bare? && s[1..] == PathText(forms)
    ensures s == Continued(forms)
  {
    assert s == "." + s[1..];
    Reassociate(".", Written(forms[0]), Continued(forms[1..]));
  }

  lemma FormThenForms(s: string, f: Form, more: seq<Form>, rest: string)
    requires s == Written(f) + rest && rest == Continued(more)
    ensures s == PathText([f] + more)
    ensures !f.Bare? ==> s == Continued([f] + more)
  {
    assert ([f] + more)[1..] == more;
    NothingInFront(Written(f), rest);
  }

  lemma BracketInFront(s: string, inside: string, w: string, rest: string)
    requires s != "" && s[0] == '[' && w != "" && w[0] == '[' && inside == w[1..] && s[1..] == inside + rest
    ensures s == w + rest
  {
    assert s == "[" + s[1..] && w == "[" + inside;
    Reassociate("[", inside, rest);
  }

  lemma OneFormWasWritten(s: string, parts: seq<Part>, expectSegment: bool) returns (f: Form, rest: string)
    requires ParseRest(s, parts, expectSegment).Ok? && s != "" && s[0] != '.'
    ensures ValidForm(f) && s == Written(f) + rest && |rest| < |s| && |parts| + 1 <= MAX_PARTS
    ensures f.Bare? ==> expectSegment
    ensures expectSegment && parts != [] ==> f.Bare?
    ensures ParseRest(s, parts, expectSegment) == ParseRest(rest, parts + [PartOf(f)], false)
  {
    if s[0] == '[' {
      var b := ReadBracket(s[1..]).value;
      f := BracketWasWritten(s[1..], b);
      rest := b.rest;
      BracketInFront(s, Inside(f), Written(f), rest);
    } else {
      var n := BareLength(s);
      f, rest := Bare(s[..n]), s[n..];
      assert s == s[..n] + s[n..];
    }
  }

  // The parser accepts exactly the writings of the grammar, and gives the parts
  // that were written; it refuses everything else.
  lemma ParserAcceptsExactlyTheGrammar(path: string, parts: seq<Part>)
    ensures Parse(path) == Ok(parts) <==> Spells(path, parts)
  {
    if Parse(path) == Ok(parts) {
      var forms := OnlyWritingsAreParsed(path, [], true, parts);
      assert [] + PartsOf(forms) == PartsOf(forms);
    }
    if Spells(path, parts) {
      var forms :| ValidForms(forms) && PathText(forms) == path && PartsOf(forms) == parts;
      EveryWritingIsParsed(path, forms);
    }
  }

  // --------------------------------------------------------------------
  // Printing
  // --------------------------------------------------------------------

  // /^[A-Za-z_$][A-Za-z0-9_$-]*$/
  predicate IsBareStart(c: char) { 'A' <= c <= 'Z' || 'a' <= c <= 'z' || c == '_' || c == '$' }

  predicate PrintsBare(key: string) {
    && key != "" && IsBareStart(key[0])
    && forall k | 0 <= k < |key| :: IsBareStart(key[k]) || IsDigit(key[k]) || key[k] == '-'
  }

  function Print(part: Part): Form {
    match part
    case Index(n) => Digits(Decimal(n))
    case Key(name) => if PrintsBare(name) then Bare(name) else Quoted(name)
  }

  function Prints(parts: seq<Part>): (forms: seq<Form>)
    ensures |forms| == |parts|
  {
    if parts == [] then [] else [Print(parts[0])] + Prints(parts[1..])
  }

  function Format(parts: seq<Part>): string { PathText(Prints(parts)) }

  // A form as it is written behind another.
  function Behind(f: Form): string { (if f.Bare? then "." else "") + Written(f) }

  lemma ContinuedCons(all: seq<Form>, f: Form, rest: seq<Form>)
    requires all == [f] + rest
    ensures Continued(all) == Behind(f) + Continued(rest)
  {
    assert all[1..] == rest;
  }

  lemma {:induction false} ContinuedBehind(all: seq<Form>, forms: seq<Form>, f: Form)
    requires all == forms + [f]
    ensures Continued(all) == Continued(forms) + Behind(f)
    decreases |forms|
  {
    if forms == [] {
      ContinuedCons(all, f, []);
      assert Behind(f) + "" == "" + Behind(f);
    } else {
      var head, rest := forms[0], forms[1..];
      FirstAndRest(forms, 1, [f]);
      ContinuedBehind(rest + [f], rest, f);
      ContinuedCons(all, head, rest + [f]);
      ContinuedCons(forms, head, rest);
      Reassociate(Behind(head), Continued(rest), Behind(f));
    }
  }

  lemma ContinuedAppend(forms: seq<Form>, f: Form)
    ensures Continued(forms + [f]) == Continued(forms) + (if f.Bare? then "." else "") + Written(f)
  {
    ContinuedBehind(forms + [f], forms, f);
    Reassociate(Continued(forms), if f.Bare? then "." else "", Written(f));
  }

  lemma {:induction false} PrintsAppend(parts: seq<Part>, part: Part)
    ensures Prints(parts + [part]) == Prints(parts) + [Print(part)]
  {
    if parts == [] {
      assert parts + [part] == [part] && [part][1..] == [];
    } else {
      assert (parts + [part])[1..] == parts[1..] + [part];
      PrintsAppend(parts[1..], part);
    }
  }

  lemma FormatAppend(parts: seq<Part>, part: Part)
    ensures var f := Print(part);
            Format(parts + [part]) == Format(parts) + (if f.Bare? && parts != [] then "." else "") + Written(f)
  {
    PrintsAppend(parts, part);
    PathTextAppend(Prints(parts), Print(part));
  }

  lemma PathTextAppend(forms: seq<Form>, f: Form)
    ensures PathText(forms + [f]) == PathText(forms) + (if f.Bare? && forms != [] then "." else "") + Written(f)
  {
    var all := forms + [f];
    if forms == [] {
      assert all[1..] == [] && all[0] == f;
      assert PathText(all) == Written(f) + "";
    } else {
      var dot := if f.Bare? then "." else "";
      assert all[1..] == forms[1..] + [f];
      ContinuedAppend(forms[1..], f);
      Reassociate(Written(forms[0]), Continued(forms[1..]) + dot, Written(f));
      Reassociate(Written(forms[0]), Continued(forms[1..]), dot);
    }
  }

  lemma FormatIsEmptyExactly(parts: seq<Part>)
    ensures Format(parts) == "" <==> parts == []
  {
  }

  // A dot goes before a bare key unless nothing has been written yet.
  method FormatPath(parts: seq<Part>) returns (out: string)
    ensures out == Format(parts)
  {
    out := "";
    for n := 0 to |parts|
      invariant out == Format(parts[..n])
    {
      var text := Segmented(parts[n], out == "");
      FormatNext(parts, n, out, text);
      out := out + text;
    }
    assert parts[..|parts|] == parts;
  }

  lemma FormatNext(parts: seq<Part>, n: nat, out: string, text: string)
    requires n < |parts| && out == Format(parts[..n])
    requires text == (if Print(parts[n]).Bare? && out != "" then "." else "") + Written(Print(parts[n]))
    ensures Format(parts[..n + 1]) == out + text
  {
    FormatIsEmptyExactly(parts[..n]);
    FormatAppendsText(parts[..n], parts[n], out, text);
    FrontAndLast(parts, n);
  }

  lemma FormatAppendsText(parts: seq<Part>, part: Part, out: string, text: string)
    requires out == Format(parts)
    requires text == (if Print(part).Bare? && parts != [] then "." else "") + Written(Print(part))
    ensures Format(parts + [part]) == out + text
  {
    FormatAppend(parts, part);
    Reassociate(out, if Print(part).Bare? && parts != [] then "." else "", Written(Print(part)));
  }

  method Segmented(part: Part, first: bool) returns (text: string)
    ensures text == (if Print(part).Bare? && !first then "." else "") + Written(Print(part))
  {
    match part
    case Index(k) => text := "[" + Decimal(k) + "]";
    case Key(name) =>
      if PrintsBare(name) {
        text := if first then name else "." + name;
      } else {
        text := "[\"" + Escape(name) + "\"]";
      }
  }

  predicate LegalPart(part: Part) {
    match part case Key(name) => LegalKey(name) case Index(n) => n < 1_000_000
  }

  predicate LegalParts(parts: seq<Part>) { forall k | 0 <= k < |parts| :: LegalPart(parts[k]) }

  lemma PrintIsValidExactly(part: Part)
    ensures ValidForm(Print(part)) <==> LegalPart(part)
    ensures LegalPart(part) ==> PartOf(Print(part)) == part
  {
    match part
    case Index(n) =>
      DecimalIsRead(n);
      DecimalLength(n, 6);
      assert Pow10(6) == 1_000_000;
    case Key(name) =>
      if PrintsBare(name) { assert AllBare(name); }
  }

  lemma ValidFormsCons(f: Form, forms: seq<Form>)
    requires ValidForm(f) && ValidForms(forms)
    ensures ValidForms([f] + forms) && PartsOf([f] + forms) == [PartOf(f)] + PartsOf(forms)
  {
    assert ([f] + forms)[1..] == forms;
  }

  lemma {:induction false} PrintsReadBack(parts: seq<Part>)
    requires LegalParts(parts)
    ensures ValidForms(Prints(parts)) && PartsOf(Prints(parts)) == parts
  {
    if parts != [] {
      PrintIsValidExactly(parts[0]);
      PrintsReadBack(parts[1..]);
      ValidFormsCons(Print(parts[0]), Prints(parts[1..]));
      assert [parts[0]] + parts[1..] == parts;
    }
  }

  // parsePath(formatPath(p)) == p for every legal part list within the limits.
  lemma FormatThenParse(parts: seq<Part>)
    requires LegalParts(parts) && |parts| <= MAX_PARTS && |Format(parts)| <= MAX_LENGTH
    ensures Parse(Format(parts)) == Ok(parts)
  {
    PrintsReadBack(parts);
    EveryWritingIsParsed(Format(parts), Prints(parts));
  }

  lemma {:induction false} OnePartPerForm(forms: seq<Form>)
    requires ValidForms(forms)
    ensures |PartsOf(forms)| == |forms|
  {
    if forms != [] { OnePartPerForm(forms[1..]); }
  }

  lemma {:induction false} PartsAreLegal(forms: seq<Form>)
    requires ValidForms(forms)
    ensures LegalParts(PartsOf(forms))
  {
    if forms != [] {
      PartsAreLegal(forms[1..]);
      if forms[0].Digits? { DigitsValueBound(forms[0].digits, 6); assert Pow10(6) == 1_000_000; }
    }
  }

  // The round trip holds exactly for legal parts within both limits.
  lemma FormatParsesBackExactly(parts: seq<Part>)
    ensures Parse(Format(parts)) == Ok(parts)
       <==> LegalParts(parts) && |parts| <= MAX_PARTS && |Format(parts)| <= MAX_LENGTH
  {
    if Parse(Format(parts)) == Ok(parts) {
      ParserAcceptsExactlyTheGrammar(Format(parts), parts);
      var forms :| ValidForms(forms) && PathText(forms) == Format(parts) && PartsOf(forms) == parts;
      PartsAreLegal(forms);
      OnePartPerForm(forms);
    }
    if LegalParts(parts) && |parts| <= MAX_PARTS && |Format(parts)| <= MAX_LENGTH { FormatThenParse(parts); }
  }

  // An index of a million or more is printed but refused by the parser.
  lemma LargeIndexDoesNotParse(n: nat)
    requires n >= 1_000_000
    ensures Parse(Format([Index(n)])).Err?
  {
    if Parse(Format([Index(n)])).Ok? {
      var parts := Parse(Format([Index(n)])).value;
      var path, digits := Format([Index(n)]), Decimal(n);
      DecimalLength(n, 6);
      assert Pow10(6) == 1_000_000;
      OneIndexText(n, path);
      OneIndexIsRefused(path, digits);
    }
  }

  lemma OneIndexText(n: nat, path: string)
    requires path == Format([Index(n)])
    ensures path == "[" + Decimal(n) + "]"
  {
    var forms: seq<Form> := [Digits(Decimal(n))];
    var parts: seq<Part> := [Index(n)];
    assert parts[1..] == [] && forms[1..] == [];
    assert Prints(parts) == forms;
    assert Written(forms[0]) + "" == Written(forms[0]);
  }

  lemma OneIndexIsRefused(path: string, digits: string)
    requires path == "[" + digits + "]" && AllDigits(digits) && |digits| > MAX_DIGITS
    ensures Parse(path).Err?
  {
    var inner := digits + "]";
    assert path[1..] == inner;
    DigitsLengthIs(inner, digits, "]");
    assert IsDigit(digits[0]) && inner[0] == digits[0] && inner[|digits|] == ']';
  }

  // Parsing then printing gives the normal form, which parses to the same parts.
  lemma ParseThenFormatIsStable(path: string, parts: seq<Part>)
    requires Parse(path) == Ok(parts) && |Format(parts)| <= MAX_LENGTH
    ensures LegalParts(parts) && Parse(Format(parts)) == Ok(parts)
  {
    ParserAcceptsExactlyTheGrammar(path, parts);
    var forms :| ValidForms(forms) && PathText(forms) == path && PartsOf(forms) == parts;
    PartsAreLegal(forms);
    FormatThenParse(parts);
  }
}
