// Which error the path parser of packages/shared/src/custom-api-path.ts reports for
// which text.
module PathErrors {
  import opened Basics
  import opened Text
  import opened Numerals
  import opened PathGrammar
  import opened PathTheorems

  // --------------------------------------------------------------------
  // Bare keys
  // --------------------------------------------------------------------

  lemma {:induction false} EscapedIsNoShorter(key: string)
    ensures |Escape(key)| >= |key|
  {
    if key != "" { EscapedIsNoShorter(key[1..]); }
  }

  lemma OneFormText(f: Form, forms: seq<Form>)
    requires forms == [f]
    ensures PathText(forms) == Written(f)
  {
    assert forms[1..] == [] && Written(f) + "" == Written(f);
  }

  lemma OneFormParts(f: Form, forms: seq<Form>)
    requires forms == [f] && ValidForm(f)
    ensures ValidForms(forms) && PartsOf(forms) == [PartOf(f)]
  {
    assert forms[1..] == [] && PartsOf(forms[1..]) == [];
  }

  // A text is a path of one key, itself, exactly when it is a legal key of at most 256
  // characters of which none is a dot, a bracket, a double quote or white space.
  lemma BareWordExactly(path: string)
    ensures Parse(path) == Ok([Key(path)])
       <==> && 1 <= |path| <= 256 && path !in {"__proto__", "prototype", "constructor"}
            && forall k | 0 <= k < |path| :: path[k] !in {'.', '[', ']', '"'} && !IsSpace(path[k])
  {
    var parts: seq<Part> := [Key(path)];
    if Parse(path) == Ok(parts) {
      ParserAcceptsExactlyTheGrammar(path, parts);
      var forms :| ValidForms(forms) && PathText(forms) == path && PartsOf(forms) == parts;
      assert |forms| == 1;
      OneFormText(forms[0], forms);
      OneFormParts(forms[0], forms);
      EscapedIsNoShorter(path);
      assert forms[0] == Bare(path);
    }
    if LegalKey(path) && AllBare(path) && |path| <= MAX_LENGTH {
      var forms := [Bare(path)];
      OneFormText(Bare(path), forms);
      OneFormParts(Bare(path), forms);
      EveryWritingIsParsed(path, forms);
    }
  }

  // A key is printed as it is exactly when it is an identifier with dashes; any other is
  // quoted.
  lemma KeyIsPrintedBareExactly(name: string)
    ensures Format([Key(name)])
         == if && name != "" && !IsDigit(name[0]) && name[0] != '-'
               && forall k | 0 <= k < |name| ::
                    || 'A' <= name[k] <= 'Z' || 'a' <= name[k] <= 'z' || '0' <= name[k] <= '9'
                    || name[k] in {'_', '$', '-'}
            then name else "[\"" + Escape(name) + "\"]"
  {
    var parts: seq<Part> := [Key(name)];
    assert parts[1..] == [] && Prints(parts[1..]) == [];
    OneFormText(Print(Key(name)), Prints(parts));
  }

  // --------------------------------------------------------------------
  // Inside a bracket
  // --------------------------------------------------------------------

  // An opening quote, the key as it is written in quotes, and what follows.
  function QuotedText(key: string, more: string): string { "\"" + (Escape(key) + more) }

  // What is wrong with the text behind an opening bracket.
  ghost predicate BracketOffends(s: string, e: PathError) {
    match e
    case UnknownEscape =>
      exists key, more :: s == QuotedText(key, "\\" + more) && (more == "" || (more[0] != '\\' && more[0] != '"'))
    case UnclosedQuote =>
      exists key, more :: s == QuotedText(key, more)
                       && (more == "" || (more[0] == '"' && (|more| == 1 || more[1] != ']')))
    case EmptyKey => exists more :: s == QuotedText("", "\"]" + more)
    case ForbiddenKey =>
      exists key, more :: s == QuotedText(key, "\"]" + more) && key in {"__proto__", "prototype", "constructor"}
    case BadIndex =>
      exists digits, more :: s == digits + more && AllDigits(digits) && (more == "" || !IsDigit(more[0]))
                          && (more == "" || more[0] != if digits == "" then '"' else ']')
    case IndexTooLarge => exists digits, more :: s == digits + ("]" + more) && AllDigits(digits) && |digits| > 6
    case _ => false
  }

  lemma {:induction false} EscapedIsPassed(s: string, key: string, more: string, read: string)
    requires s == Escape(key) + more
    ensures ReadQuoted(s, read) == ReadQuoted(more, read + key)
    decreases |key|
  {
    if key == "" {
      assert s == more && read + key == read;
    } else {
      var c, tail := key[0], Escape(key[1..]) + more;
      var head := if c == '\\' || c == '"' then ['\\', c] else [c];
      Reassociate(head, Escape(key[1..]), more);
      Cut(s, head, tail);
      EscapedIsPassed(tail, key[1..], more, read + [c]);
      Reassociate(read, [c], key[1..]);
      assert [c] + key[1..] == key;
    }
  }

  lemma QuotedTextIsPassed(s: string, key: string, more: string)
    requires s == QuotedText(key, more)
    ensures s != "" && s[0] == '"' && ReadQuoted(s[1..], "") == ReadQuoted(more, key)
  {
    assert s[1..] == Escape(key) + more && "" + key == key;
    EscapedIsPassed(s[1..], key, more, "");
  }

  // Where the reading of a quoted key fails.
  lemma {:induction false} QuotedFails(s: string, read: string, e: PathError) returns (key: string, more: string)
    requires ReadQuoted(s, read) == Err(e)
    ensures s == Escape(key) + more
    ensures (e == UnclosedQuote && more == "")
         || (e == UnknownEscape && more != "" && more[0] == '\\' && (|more| == 1 || more[1] !in {'\\', '"'}))
    decreases |s|
  {
    if s == "" || (s[0] == '\\' && (|s| < 2 || (s[1] != '"' && s[1] != '\\'))) {
      key, more := "", s;
    } else {
      var n := if s[0] == '\\' then 2 else 1;
      var head, c := s[..n], s[n - 1];
      var tail;
      tail, more := QuotedFails(s[n..], read + [c], e);
      key := [c] + tail;
      assert key[1..] == tail && s == head + s[n..] && Escape(key) == head + Escape(tail);
      Reassociate(head, Escape(tail), more);
    }
  }

  lemma QuotedOffenceIsReported(s: string, key: string, more: string)
    requires s == QuotedText(key, more)
    ensures more == "" ==> ReadBracket(s) == Err(UnclosedQuote)
    ensures more != "" && more[0] == '\\' && (|more| == 1 || more[1] !in {'\\', '"'}) ==>
      ReadBracket(s) == Err(UnknownEscape)
    ensures more != "" && more[0] == '"' && (|more| == 1 || more[1] != ']') ==> ReadBracket(s) == Err(UnclosedQuote)
    ensures |more| >= 2 && more[..2] == "\"]" && !LegalKey(key) ==> ReadBracket(s) == Err(KeyError(key))
  {
    QuotedTextIsPassed(s, key, more);
    if |more| >= 2 && more[..2] == "\"]" { assert more[0] == more[..2][0] && more[1] == more[..2][1]; }
  }

  lemma TwoFirst(more: string, rest: string)
    requires more == "\"]" + rest
    ensures |more| >= 2 && more[..2] == "\"]"
  {
  }

  lemma IndexOffenceIsReported(s: string, digits: string, more: string)
    requires s == digits + more && AllDigits(digits) && (more == "" || !IsDigit(more[0]))
    ensures more == "" || more[0] != (if digits == "" then '"' else ']') ==> ReadBracket(s) == Err(BadIndex)
    ensures more != "" && more[0] == ']' && |digits| > 6 ==> ReadBracket(s) == Err(IndexTooLarge)
  {
    DigitsLengthIs(s, digits, more);
    if digits != "" { assert IsDigit(digits[0]) && s[0] == digits[0]; }
    if more != "" { assert s[|digits|] == more[0]; }
  }

  lemma BracketOffenceIsReported(s: string, e: PathError)
    requires BracketOffends(s, e)
    ensures ReadBracket(s) == Err(e)
  {
    match e
    case UnknownEscape =>
      var key, more :| s == QuotedText(key, "\\" + more) && (more == "" || (more[0] != '\\' && more[0] != '"'));
      QuotedOffenceIsReported(s, key, "\\" + more);
    case UnclosedQuote =>
      var key, more :| s == QuotedText(key, more)
                    && (more == "" || (more[0] == '"' && (|more| == 1 || more[1] != ']')));
      QuotedOffenceIsReported(s, key, more);
    case EmptyKey =>
      var more :| s == QuotedText("", "\"]" + more);
      TwoFirst("\"]" + more, more);
      QuotedOffenceIsReported(s, "", "\"]" + more);
    case ForbiddenKey =>
      var key, more :| s == QuotedText(key, "\"]" + more) && key in {"__proto__", "prototype", "constructor"};
      TwoFirst("\"]" + more, more);
      QuotedOffenceIsReported(s, key, "\"]" + more);
    case BadIndex =>
      var digits, more :| s == digits + more && AllDigits(digits) && (more == "" || !IsDigit(more[0]))
                       && (more == "" || more[0] != if digits == "" then '"' else ']');
      IndexOffenceIsReported(s, digits, more);
    case IndexTooLarge =>
      var digits, more :| s == digits + ("]" + more) && AllDigits(digits) && |digits| > 6;
      IndexOffenceIsReported(s, digits, "]" + more);
  }

  lemma BracketErrorIsAnOffence(s: string, e: PathError)
    requires ReadBracket(s) == Err(e)
    ensures BracketOffends(s, e)
  {
    if s != "" && s[0] == '"' {
      assert s == "\"" + s[1..];
      QuotedErrorIsAnOffence(s, e);
    } else {
      IndexErrorIsAnOffence(s, e);
    }
  }

  lemma IndexErrorIsAnOffence(s: string, e: PathError)
    requires ReadBracket(s) == Err(e) && (s == "" || s[0] != '"')
    ensures BracketOffends(s, e)
  {
    var n := DigitsLength(s);
    var digits, more := s[..n], s[n..];
    assert s == digits + more;
    if e == IndexTooLarge {
      assert more == "]" + s[n + 1..];
    }
  }

  lemma UnreadQuoteIsAnOffence(s: string, e: PathError)
    requires s != "" && s == "\"" + s[1..] && ReadQuoted(s[1..], "") == Err(e)
    ensures BracketOffends(s, e)
  {
    var key, more := QuotedFails(s[1..], "", e);
    assert s == QuotedText(key, more);
    if e == UnknownEscape { assert more == "\\" + more[1..]; }
  }

  // A closed quote that is not followed by a bracket, or an illegal key.
  lemma ReadQuoteOffends(s: string, key: string, after: string, e: PathError)
    requires s == QuotedText(key, "\"" + after)
    requires if after == "" || after[0] != ']' then e == UnclosedQuote else !LegalKey(key) && e == KeyError(key)
    ensures BracketOffends(s, e)
  {
    if e != UnclosedQuote { assert "\"" + after == "\"]" + after[1..]; }
  }

  lemma QuotedErrorIsAnOffence(s: string, e: PathError)
    requires ReadBracket(s) == Err(e) && s != "" && s[0] == '"' && s == "\"" + s[1..]
    ensures BracketOffends(s, e)
  {
    match ReadQuoted(s[1..], "")
    case Err(_) => UnreadQuoteIsAnOffence(s, e);
    case Ok(q) =>
      var key := QuotedWasWritten(s[1..], "", q);
      assert "" + key == key && s == QuotedText(key, "\"" + q.rest);
      ReadQuoteOffends(s, key, q.rest, e);
  }

  // --------------------------------------------------------------------
  // Behind a correct beginning
  // --------------------------------------------------------------------

  // What is wrong with `t` at its start: at the start of the path or not, where a
  // segment must follow or not, and with all sixteen parts read or not.
  ghost predicate Stuck(t: string, first: bool, expectSegment: bool, full: bool, e: PathError) {
    if t == "" then e == EndsWithDot && expectSegment && !first
    else if t[0] == '.' then e == EmptyKey && expectSegment
    else if t[0] == '[' then
      if expectSegment && !first then e == DotThenBracket
      else
        || BracketOffends(t[1..], e)
        || exists f, more :: ValidForm(f) && !f.Bare? && t == Written(f) + more
                          && if MayFollowBracket(more) then full && e == TooManyParts else e == AfterBracket
    else if !expectSegment then e == MissingDot
    else
      || (e == NeedsQuotes && !IsBareKeyChar(t[0]))
      || exists key, more :: t == key + more && key != "" && AllBare(key) && (more == "" || !IsBareKeyChar(more[0]))
                          && if key in {"__proto__", "prototype", "constructor"} then e == ForbiddenKey
                             else full && e == TooManyParts
  }

  lemma StuckIsReported(t: string, parts: seq<Part>, expectSegment: bool, e: PathError)
    requires |parts| <= MAX_PARTS && (parts == [] ==> expectSegment)
    requires Stuck(t, parts == [], expectSegment, |parts| == MAX_PARTS, e)
    ensures ParseRest(t, parts, expectSegment) == Err(e)
  {
    if t != "" && t[0] == '[' {
      if !(expectSegment && parts != []) { StuckInBracket(t, parts, expectSegment, e); }
    } else if t != "" && t[0] != '.' && expectSegment && IsBareKeyChar(t[0]) {
      var key, more :| t == key + more && key != "" && AllBare(key) && (more == "" || !IsBareKeyChar(more[0]))
                    && if key in {"__proto__", "prototype", "constructor"} then e == ForbiddenKey
                       else |parts| == MAX_PARTS && e == TooManyParts;
      BareLengthIs(t, key, more);
    } else if t != "" && t[0] != '.' && expectSegment {
      assert BareLength(t) == 0;
      forall key, more | t == key + more && key != "" ensures !AllBare(key) { assert key[0] == t[0]; }
    }
  }

  lemma StuckBehindBracket(t: string, f: Form, more: string, parts: seq<Part>, expectSegment: bool, e: PathError)
    requires ValidForm(f) && !f.Bare? && t == Written(f) + more && !(expectSegment && parts != [])
    requires if MayFollowBracket(more) then |parts| == MAX_PARTS && e == TooManyParts else e == AfterBracket
    ensures ParseRest(t, parts, expectSegment) == Err(e)
  {
    assert t[0] == '[' && t[1..] == Inside(f) + more;
    PathTheorems.BracketIsRead(t[1..], f, more);
  }

  lemma StuckInBracket(t: string, parts: seq<Part>, expectSegment: bool, e: PathError)
    requires |parts| <= MAX_PARTS && t != "" && t[0] == '[' && !(expectSegment && parts != [])
    requires Stuck(t, parts == [], expectSegment, |parts| == MAX_PARTS, e)
    ensures ParseRest(t, parts, expectSegment) == Err(e)
  {
    if BracketOffends(t[1..], e) {
      BracketOffenceIsReported(t[1..], e);
    } else {
      var f, more :| ValidForm(f) && !f.Bare? && t == Written(f) + more
                  && if MayFollowBracket(more) then |parts| == MAX_PARTS && e == TooManyParts else e == AfterBracket;
      StuckBehindBracket(t, f, more, parts, expectSegment, e);
    }
  }

  // The last form of a beginning may end where `rest` starts.
  predicate MayEnd(f: Form, rest: string) {
    rest == "" || if f.Bare? then !IsBareKeyChar(rest[0]) else rest[0] == '.' || rest[0] == '['
  }

  // One step of the parser: it stops with its error, or reads one form.
  lemma StepOrStuck(s: string, parts: seq<Part>, expectSegment: bool, e: PathError)
    returns (stuck: bool, f: Form, rest: string)
    requires ParseRest(s, parts, expectSegment) == Err(e) && |parts| <= MAX_PARTS && (parts == [] ==> expectSegment)
    requires s == "" || s[0] != '.' || expectSegment
    ensures stuck ==> Stuck(s, parts == [], expectSegment, |parts| == MAX_PARTS, e)
    ensures !stuck ==>
      && ValidForm(f) && s == Written(f) + rest && |rest| < |s| && |parts| < MAX_PARTS && MayEnd(f, rest)
      && ParseRest(rest, parts + [PartOf(f)], false) == Err(e)
      && if f.Bare? then expectSegment else expectSegment ==> parts == []
  {
    stuck, f, rest := true, Bare(""), "";
    if s != "" && s[0] == '[' {
      if !(expectSegment && parts != []) { stuck, f, rest := BracketStepOrStuck(s, parts, expectSegment, e); }
    } else if s != "" && s[0] != '.' && expectSegment && IsBareKeyChar(s[0]) {
      stuck, f, rest := BareStepOrStuck(s, parts, e);
    }
  }

  lemma BareStepOrStuck(s: string, parts: seq<Part>, e: PathError) returns (stuck: bool, f: Form, rest: string)
    requires ParseRest(s, parts, true) == Err(e) && |parts| <= MAX_PARTS
    requires s != "" && s[0] != '.' && s[0] != '[' && IsBareKeyChar(s[0])
    ensures stuck ==> Stuck(s, parts == [], true, |parts| == MAX_PARTS, e)
    ensures !stuck ==>
      && ValidForm(f) && f.Bare? && s == Written(f) + rest && |rest| < |s| && |parts| < MAX_PARTS && MayEnd(f, rest)
      && ParseRest(rest, parts + [PartOf(f)], false) == Err(e)
  {
    var n := BareLength(s);
    var key := s[..n];
    f, rest := Bare(key), s[n..];
    stuck := !LegalKey(key) || |parts| == MAX_PARTS;
    assert s == key + rest && (rest != "" ==> rest[0] == s[n]);
  }

  lemma BracketStepOrStuck(s: string, parts: seq<Part>, expectSegment: bool, e: PathError)
    returns (stuck: bool, f: Form, rest: string)
    requires ParseRest(s, parts, expectSegment) == Err(e) && |parts| <= MAX_PARTS
    requires s != "" && s[0] == '[' && !(expectSegment && parts != [])
    ensures stuck ==> Stuck(s, parts == [], expectSegment, |parts| == MAX_PARTS, e)
    ensures !stuck ==>
      && ValidForm(f) && !f.Bare? && s == Written(f) + rest && |rest| < |s| && |parts| < MAX_PARTS && MayEnd(f, rest)
      && ParseRest(rest, parts + [PartOf(f)], false) == Err(e)
  {
    f, rest := Bare(""), "";
    match ReadBracket(s[1..])
    case Err(_) =>
      stuck := true;
      BracketErrorIsAnOffence(s[1..], e);
    case Ok(b) =>
      f := BracketWasWritten(s[1..], b);
      rest := b.rest;
      BracketInFront(s, Inside(f), Written(f), rest);
      stuck := !MayFollowBracket(rest) || |parts| == MAX_PARTS;
  }

  // What is wrong right behind a beginning: there, or behind the dot that follows.
  ghost predicate Offends(rest: string, first: bool, expectSegment: bool, full: bool, e: PathError) {
    || Stuck(rest, first, expectSegment, full, e)
    || (!expectSegment && rest != "" && rest[0] == '.' && Stuck(rest[1..], false, true, full, e))
  }

  // `path` is `forms` and then something wrong that gives `e`.
  ghost predicate FailsBehind(path: string, forms: seq<Form>, rest: string, e: PathError) {
    && ValidForms(forms) && |forms| <= 16 && path == PathText(forms) + rest
    && (forms != [] ==> MayEnd(forms[|forms| - 1], rest))
    && Offends(rest, forms == [], forms == [], |forms| == 16, e)
  }

  // --------------------------------------------------------------------
  // Every offence behind a correct beginning is the error reported
  // --------------------------------------------------------------------

  lemma OffenceIsReported(rest: string, parts: seq<Part>, e: PathError)
    requires |parts| <= MAX_PARTS && Offends(rest, parts == [], parts == [], |parts| == MAX_PARTS, e)
    ensures ParseRest(rest, parts, parts == []) == Err(e)
  {
    if Stuck(rest, parts == [], parts == [], |parts| == MAX_PARTS, e) {
      StuckIsReported(rest, parts, parts == [], e);
    } else {
      StuckIsReported(rest[1..], parts, true, e);
    }
  }

  // A beginning without its first form.
  lemma LaterForms(forms: seq<Form>, f: Form, later: seq<Form>, rest: string, next: string)
    requires forms == [f] + later && ValidForms(forms) && MayEnd(forms[|forms| - 1], rest)
    requires next == Continued(later) + rest
    ensures Continued(forms) + rest == Behind(f) + next && PartsOf(forms) == [PartOf(f)] + PartsOf(later)
    ensures ValidForm(f) && ValidForms(later) && MayEnd(f, next)
    ensures later != [] ==> MayEnd(later[|later| - 1], rest)
  {
    ContinuedCons(forms, f, later);
    Reassociate(Behind(f), Continued(later), rest);
    ValidFormsCons(f, later);
    if later == [] { assert next == rest; } else { ContinuedStarts(later); }
  }

  lemma {:induction false} BeginningIsParsed(s: string, forms: seq<Form>, rest: string, parts: seq<Part>)
    requires ValidForms(forms) && s == Continued(forms) + rest && parts != [] && |parts| + |forms| <= MAX_PARTS
    requires forms != [] ==> MayEnd(forms[|forms| - 1], rest)
    ensures ParseRest(s, parts, false) == ParseRest(rest, parts + PartsOf(forms), false)
    decreases |forms|
  {
    if forms == [] {
      assert s == rest && parts + PartsOf(forms) == parts;
    } else {
      var f, later := forms[0], forms[1..];
      var next := Continued(later) + rest;
      LaterForms(forms, f, later, rest, next);
      OneMoreBefore(s, f, next, parts);
      BeginningIsParsed(next, later, rest, parts + [PartOf(f)]);
      MovePart(parts, PartOf(f), PartsOf(later));
    }
  }

  lemma ContinuedStarts(forms: seq<Form>)
    requires forms != []
    ensures Continued(forms) != "" && (Continued(forms)[0] == '.' || Continued(forms)[0] == '[')
  {
  }

  lemma OneFormIsParsed(s: string, f: Form, next: string, parts: seq<Part>)
    requires ValidForm(f) && s == Written(f) + next && |parts| < MAX_PARTS && MayEnd(f, next)
    ensures f.Bare? || parts == [] ==> ParseRest(s, parts, true) == ParseRest(next, parts + [PartOf(f)], false)
    ensures !f.Bare? ==> ParseRest(s, parts, false) == ParseRest(next, parts + [PartOf(f)], false)
  {
    if f.Bare? {
      BareLengthIs(s, f.key, next);
      assert IsBareKeyChar(f.key[0]) && s[0] == f.key[0];
      BareKeyStep(s, parts, |f.key|);
    } else {
      FormIsParsed(s, f, next, parts);
    }
  }

  lemma OneMoreBefore(s: string, f: Form, next: string, parts: seq<Part>)
    requires ValidForm(f) && s == Behind(f) + next && parts != [] && |parts| < MAX_PARTS && MayEnd(f, next)
    ensures ParseRest(s, parts, false) == ParseRest(next, parts + [PartOf(f)], false)
  {
    var t := Written(f) + next;
    OneFormIsParsed(t, f, next, parts);
    if f.Bare? {
      Reassociate(".", Written(f), next);
      DotIsParsed(s, t, parts);
    } else {
      NothingInFront(Written(f), next);
    }
  }

  lemma FirstFormBefore(path: string, forms: seq<Form>, rest: string)
    requires ValidForms(forms) && forms != [] && |forms| <= MAX_PARTS && path == PathText(forms) + rest
    requires MayEnd(forms[|forms| - 1], rest)
    ensures ParseRest(path, [], true) == ParseRest(rest, PartsOf(forms), false)
  {
    var f, later := forms[0], forms[1..];
    var next := Continued(later) + rest;
    Reassociate(Written(f), Continued(later), rest);
    LaterForms(forms, f, later, rest, next);
    OneFormIsParsed(path, f, next, []);
    BeginningIsParsed(next, later, rest, [PartOf(f)]);
    assert [] + [PartOf(f)] == [PartOf(f)];
  }

  lemma FailureIsReported(path: string, forms: seq<Form>, rest: string, e: PathError)
    requires |path| <= MAX_LENGTH && FailsBehind(path, forms, rest, e)
    ensures Parse(path) == Err(e)
  {
    OnePartPerForm(forms);
    if forms == [] { assert path == rest; } else { FirstFormBefore(path, forms, rest); }
    OffenceIsReported(rest, PartsOf(forms), e);
  }

  // --------------------------------------------------------------------
  // Every error reported is such an offence
  // --------------------------------------------------------------------

  // What the parser still reads correctly, given where it stands, and what stops it.
  ghost predicate Stops(s: string, parts: seq<Part>, expectSegment: bool, forms: seq<Form>, rest: string,
                        e: PathError) {
    && ValidForms(forms) && |parts| + |forms| <= MAX_PARTS
    && s == (if expectSegment then PathText(forms) else Continued(forms)) + rest
    && (expectSegment && parts != [] && forms != [] ==> forms[0].Bare?)
    && (forms != [] ==> MayEnd(forms[|forms| - 1], rest))
    && if forms == [] then Offends(rest, parts == [], expectSegment, |parts| == MAX_PARTS, e)
       else Offends(rest, false, false, |parts| + |forms| == MAX_PARTS, e)
  }

  lemma DotStops(s: string, parts: seq<Part>, later: seq<Form>, rest: string, e: PathError)
    requires s != "" && s[0] == '.' && parts != [] && |parts| <= MAX_PARTS && Stops(s[1..], parts, true, later, rest, e)
    ensures Stops(s, parts, false, later, if later == [] then s else rest, e)
  {
    if later == [] { assert s[1..] == rest && "" + s == s; } else { DotBefore(s, later, rest); }
  }

  lemma FormStops(s: string, parts: seq<Part>, expectSegment: bool, f: Form, next: string, later: seq<Form>,
                  rest: string, e: PathError)
    requires ValidForm(f) && s == Written(f) + next && |parts| < MAX_PARTS && MayEnd(f, next)
    requires if f.Bare? then expectSegment else expectSegment ==> parts == []
    requires Stops(next, parts + [PartOf(f)], false, later, rest, e)
    ensures Stops(s, parts, expectSegment, [f] + later, rest, e)
  {
    var forms := [f] + later;
    FormBefore(s, f, later, next, rest);
    ValidFormsCons(f, later);
    if later == [] { assert next == rest; } else { assert forms[|forms| - 1] == later[|later| - 1]; }
  }

  lemma {:induction false} ErrorStops(s: string, parts: seq<Part>, expectSegment: bool, e: PathError)
    returns (forms: seq<Form>, rest: string)
    requires ParseRest(s, parts, expectSegment) == Err(e) && |parts| <= MAX_PARTS && (parts == [] ==> expectSegment)
    ensures Stops(s, parts, expectSegment, forms, rest, e)
    decreases |s|
  {
    if s != "" && s[0] == '.' && !expectSegment {
      forms, rest := ErrorStops(s[1..], parts, true, e);
      DotStops(s, parts, forms, rest, e);
      rest := if forms == [] then s else rest;
    } else {
      var stuck, f, next := StepOrStuck(s, parts, expectSegment, e);
      if stuck {
        forms, rest := [], s;
        assert "" + s == s;
      } else {
        forms, rest := ErrorStops(next, parts + [PartOf(f)], false, e);
        FormStops(s, parts, expectSegment, f, next, forms, rest, e);
        forms := [f] + forms;
      }
    }
  }

  lemma DotBefore(s: string, forms: seq<Form>, rest: string)
    requires s != "" && s[0] == '.' && forms != [] && forms[0].Bare? && s[1..] == PathText(forms) + rest
    ensures s == Continued(forms) + rest
  {
    var t := "." + PathText(forms);
    assert s == "." + s[1..];
    Reassociate(".", PathText(forms), rest);
    assert t[1..] == PathText(forms);
    DotThenForms(t, forms);
  }

  lemma FormBefore(s: string, f: Form, later: seq<Form>, next: string, rest: string)
    requires s == Written(f) + next && next == Continued(later) + rest
    ensures s == PathText([f] + later) + rest
    ensures !f.Bare? ==> s == Continued([f] + later) + rest
  {
    Reassociate(Written(f), Continued(later), rest);
    FormThenForms(Written(f) + Continued(later), f, later, Continued(later));
  }

  // The parser refuses a path exactly when it is too long, or when a correct beginning
  // of at most sixteen parts is followed by something the table lists, and the error is
  // the one listed there.
  lemma ErrorsAreReportedExactly(path: string, e: PathError)
    ensures Parse(path) == Err(e)
       <==> if |path| > 256 then e == TooLong else exists forms, rest :: FailsBehind(path, forms, rest, e)
  {
    if |path| <= 256 {
      if Parse(path) == Err(e) {
        var forms, rest := ErrorStops(path, [], true, e);
        assert FailsBehind(path, forms, rest, e);
      }
      if forms, rest :| FailsBehind(path, forms, rest, e) { FailureIsReported(path, forms, rest, e); }
    }
  }
}
