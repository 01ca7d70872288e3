// The path selector of packages/shared/src/custom-api-path.ts: its parser, its
// printer, and the grammar both follow.
module PathGrammar {
  import opened Basics
  import opened Text
  import opened Numerals

  datatype Part = Key(name: string) | Index(n: nat)

  const MAX_LENGTH: nat := 256
  const MAX_PARTS: nat := 16
  const MAX_DIGITS: nat := 6

  const FORBIDDEN_KEYS: set<string> := {"__proto__", "prototype", "constructor"}

  datatype PathError =
    | TooLong | EmptyKey | ForbiddenKey | DotThenBracket | UnknownEscape | UnclosedQuote
    | BadIndex | IndexTooLarge | AfterBracket | MissingDot | NeedsQuotes | TooManyParts | EndsWithDot

  datatype Result<+T> = Ok(value: T) | Err(error: PathError)

  predicate LegalKey(key: string) { key != "" && key !in FORBIDDEN_KEYS }

  function KeyError(key: string): PathError
    requires !LegalKey(key)
  {
    if key == "" then EmptyKey else ForbiddenKey
  }

  predicate IsBareKeyChar(c: char) { c != '.' && c != '[' && c != ']' && c != '"' && !IsSpace(c) }

  predicate AllBare(s: string) { forall k | 0 <= k < |s| :: IsBareKeyChar(s[k]) }

  // --------------------------------------------------------------------
  // The grammar
  // --------------------------------------------------------------------

  // One part as it can be written: a bare key, a quoted key, or an index whose
  // digits may have leading zeros.
  datatype Form = Bare(key: string) | Quoted(key: string) | Digits(digits: string)

  predicate ValidForm(f: Form) {
    match f
    case Bare(key) => LegalKey(key) && AllBare(key)
    case Quoted(key) => LegalKey(key)
    case Digits(digits) => 1 <= |digits| <= MAX_DIGITS && AllDigits(digits)
  }

  function PartOf(f: Form): Part
    requires ValidForm(f)
  {
    match f
    case Bare(key) => Key(key)
    case Quoted(key) => Key(key)
    case Digits(digits) => Index(DigitsValue(digits))
  }

  function Escape(key: string): string {
    if key == "" then ""
    else (if key[0] == '\\' || key[0] == '"' then ['\\', key[0]] else [key[0]]) + Escape(key[1..])
  }

  function Written(f: Form): string {
    match f
    case Bare(key) => key
    case Quoted(key) => "[\"" + Escape(key) + "\"]"
    case Digits(digits) => "[" + digits + "]"
  }

  // The text after at least one part: only bare keys are set off by a dot.
  function Continued(forms: seq<Form>): string {
    if forms == [] then ""
    else (if forms[0].Bare? then "." else "") + Written(forms[0]) + Continued(forms[1..])
  }

  function PathText(forms: seq<Form>): string {
    if forms == [] then "" else Written(forms[0]) + Continued(forms[1..])
  }

  predicate ValidForms(forms: seq<Form>) { forall k | 0 <= k < |forms| :: ValidForm(forms[k]) }

  function PartsOf(forms: seq<Form>): (parts: seq<Part>)
    requires ValidForms(forms)
    ensures |parts| == |forms|
  {
    if forms == [] then [] else [PartOf(forms[0])] + PartsOf(forms[1..])
  }

  // `path` is a writing of `parts` within the limits.
  ghost predicate Spells(path: string, parts: seq<Part>) {
    && |path| <= MAX_LENGTH && |parts| <= MAX_PARTS
    && exists forms :: ValidForms(forms) && PathText(forms) == path && PartsOf(forms) == parts
  }

  // --------------------------------------------------------------------
  // The parser, as a function of the text still to be read
  // --------------------------------------------------------------------

  // How many bare key characters, or digits, the text starts with.
  function BareLength(s: string): (n: nat)
    ensures n <= |s| && AllBare(s[..n]) && (n < |s| ==> !IsBareKeyChar(s[n]))
  {
    if s != "" && IsBareKeyChar(s[0]) then 1 + BareLength(s[1..]) else 0
  }

  datatype Scanned = Scanned(key: string, rest: string)

  // The inside of a quoted key, with `read` read so far, up to its closing quote.
  function ReadQuoted(s: string, read: string): (r: Result<Scanned>)
    ensures r.Ok? ==> |r.value.rest| < |s|
    decreases |s|
  {
    if s == "" then Err(UnclosedQuote)
    else if s[0] == '\\' then
      if |s| < 2 || (s[1] != '"' && s[1] != '\\') then Err(UnknownEscape)
      else ReadQuoted(s[2..], read + [s[1]])
    else if s[0] == '"' then Ok(Scanned(read, s[1..]))
    else ReadQuoted(s[1..], read + [s[0]])
  }

  datatype Segment = Segment(part: Part, rest: string)

  // What follows an opening bracket.
  function ReadBracket(s: string): (r: Result<Segment>)
    ensures r.Ok? ==> |r.value.rest| < |s|
  {
    if s != "" && s[0] == '"' then
      match ReadQuoted(s[1..], "")
      case Err(e) => Err(e)
      case Ok(q) =>
        if q.rest == "" || q.rest[0] != ']' then Err(UnclosedQuote)
        else if !LegalKey(q.key) then Err(KeyError(q.key))
        else Ok(Segment(Key(q.key), q.rest[1..]))
    else
      var n := DigitsLength(s);
      if n == 0 || n == |s| || s[n] != ']' then Err(BadIndex)
      else if n > MAX_DIGITS then Err(IndexTooLarge)
      else Ok(Segment(Index(DigitsValue(s[..n])), s[n + 1..]))
  }

  predicate MayFollowBracket(s: string) { s == "" || s[0] == '.' || s[0] == '[' }

  function ParseRest(s: string, parts: seq<Part>, expectSegment: bool): Result<seq<Part>>
    decreases |s|
  {
    if s == "" then
      if parts != [] && expectSegment then Err(EndsWithDot) else Ok(parts)
    else if s[0] == '.' then
      if expectSegment then Err(EmptyKey) else ParseRest(s[1..], parts, true)
    else if s[0] == '[' then
      if expectSegment && parts != [] then Err(DotThenBracket)
      else
        match ReadBracket(s[1..])
        case Err(e) => Err(e)
        case Ok(b) =>
          if !MayFollowBracket(b.rest) then Err(AfterBracket)
          else if |parts| + 1 > MAX_PARTS then Err(TooManyParts)
          else ParseRest(b.rest, parts + [b.part], false)
    else if !expectSegment then Err(MissingDot)
    else
      var n := BareLength(s);
      if n == 0 then Err(NeedsQuotes)
      else if !LegalKey(s[..n]) then Err(KeyError(s[..n]))
      else if |parts| + 1 > MAX_PARTS then Err(TooManyParts)
      else ParseRest(s[n..], parts + [Key(s[..n])], false)
  }

  function Parse(path: string): Result<seq<Part>> {
    if |path| > MAX_LENGTH then Err(TooLong) else ParseRest(path, [], true)
  }

  // --------------------------------------------------------------------
  // The parser, as loops over an index
  // --------------------------------------------------------------------

  method ScanQuoted(path: string, start: nat) returns (r: Result<string>, j: nat)
    requires start <= |path|
    ensures match r
            case Ok(key) => j < |path| && ReadQuoted(path[start..], "") == Ok(Scanned(key, path[j + 1..]))
            case Err(e) => ReadQuoted(path[start..], "") == Err(e)
  {
    var key := "";
    j := start;
    while j < |path|
      invariant start <= j <= |path|
      invariant ReadQuoted(path[start..], "") == ReadQuoted(path[j..], key)
      decreases |path| - j
    {
      var c := path[j];
      assert path[j..][1..] == path[j + 1..];
      if c == '\\' {
        if j + 1 >= |path| || (path[j + 1] != '"' && path[j + 1] != '\\') { return Err(UnknownEscape), j; }
        assert path[j..][2..] == path[j + 2..];
        key := key + [path[j + 1]];
        j := j + 2;
      } else if c == '"' {
        return Ok(key), j;
      } else {
        key := key + [c];
        j := j + 1;
      }
    }
    return Err(UnclosedQuote), j;
  }

  method ScanBare(path: string, start: nat) returns (j: nat)
    requires start <= |path|
    ensures j == start + BareLength(path[start..])
  {
    j := start;
    while j < |path| && IsBareKeyChar(path[j])
      invariant start <= j <= |path|
      invariant start + BareLength(path[start..]) == j + BareLength(path[j..])
    {
      assert path[j..][1..] == path[j + 1..];
      j := j + 1;
    }
  }

  method ScanDigits(path: string, start: nat) returns (j: nat)
    requires start <= |path|
    ensures j == start + DigitsLength(path[start..])
  {
    j := start;
    while j < |path| && IsDigit(path[j])
      invariant start <= j <= |path|
      invariant start + DigitsLength(path[start..]) == j + DigitsLength(path[j..])
    {
      assert path[j..][1..] == path[j + 1..];
      j := j + 1;
    }
  }

  method ScanKey(path: string, i: nat) returns (r: Result<Part>, next: nat)
    requires i < |path|
    ensures var s, n := path[i..], BareLength(path[i..]);
            match r
            case Ok(part) => n > 0 && LegalKey(s[..n]) && part == Key(s[..n])
                          && next == i + n && s[n..] == path[next..]
            case Err(e) => if n == 0 then e == NeedsQuotes else !LegalKey(s[..n]) && e == KeyError(s[..n])
  {
    var j := ScanBare(path, i);
    var key := path[i..j];
    assert path[i..][..j - i] == key && path[i..][j - i..] == path[j..];
    if key == "" { return Err(NeedsQuotes), i; }
    if !LegalKey(key) { return Err(KeyError(key)), i; }
    return Ok(Key(key)), j;
  }

  method ScanQuotedKey(path: string, i: nat) returns (r: Result<Part>, next: nat)
    requires i + 1 < |path| && path[i] == '[' && path[i + 1] == '"'
    ensures match r
            case Ok(part) => i < next <= |path| && ReadBracket(path[i + 1..]) == Ok(Segment(part, path[next..]))
            case Err(e) => ReadBracket(path[i + 1..]) == Err(e)
  {
    assert path[i + 1..][1..] == path[i + 2..];
    var key, j := ScanQuoted(path, i + 2);
    if key.Err? { return Err(key.error), i; }
    if j + 1 >= |path| || path[j + 1] != ']' { return Err(UnclosedQuote), i; }
    if !LegalKey(key.value) { return Err(KeyError(key.value)), i; }
    assert path[j + 1..][1..] == path[j + 2..];
    return Ok(Key(key.value)), j + 2;
  }

  method ScanBracket(path: string, i: nat) returns (r: Result<Part>, next: nat)
    requires i < |path| && path[i] == '['
    ensures match r
            case Ok(part) => i < next <= |path| && ReadBracket(path[i + 1..]) == Ok(Segment(part, path[next..]))
            case Err(e) => ReadBracket(path[i + 1..]) == Err(e)
  {
    var s := path[i + 1..];
    if i + 1 < |path| && path[i + 1] == '"' {
      r, next := ScanQuotedKey(path, i);
      return;
    }
    var j := ScanDigits(path, i + 1);
    var digits := path[i + 1..j];
    assert digits == s[..DigitsLength(s)];
    if digits == "" || j >= |path| || path[j] != ']' { return Err(BadIndex), i; }
    if |digits| > MAX_DIGITS { return Err(IndexTooLarge), i; }
    assert s[DigitsLength(s) + 1..] == path[j + 1..];
    return Ok(Index(DigitsValue(digits))), j + 1;
  }

  // The two steps that read a part.
  lemma BareKeyStep(s: string, parts: seq<Part>, n: nat)
    requires s != "" && s[0] != '.' && s[0] != '[' && n == BareLength(s) && n > 0
    requires LegalKey(s[..n]) && |parts| < MAX_PARTS
    ensures ParseRest(s, parts, true) == ParseRest(s[n..], parts + [Key(s[..n])], false)
  {
  }

  lemma BracketStep(s: string, parts: seq<Part>, expectSegment: bool, part: Part, rest: string)
    requires s != "" && s[0] == '[' && (parts == [] || !expectSegment) && |parts| < MAX_PARTS
    requires ReadBracket(s[1..]) == Ok(Segment(part, rest)) && MayFollowBracket(rest)
    ensures ParseRest(s, parts, expectSegment) == ParseRest(rest, parts + [part], false)
  {
  }

  method ParsePath(path: string) returns (r: Result<seq<Part>>)
    ensures r == Parse(path)
  {
    if |path| > MAX_LENGTH { return Err(TooLong); }
    var parts: seq<Part> := [];
    var i := 0;
    var expectSegment := true;
    assert path[0..] == path;
    while i < |path|
      invariant 0 <= i <= |path| && (parts == [] ==> i == 0 && expectSegment)
      invariant ParseRest(path, [], true) == ParseRest(path[i..], parts, expectSegment)
      decreases |path| - i
    {
      var c := path[i];
      assert path[i..][1..] == path[i + 1..];
      if c == '.' {
        if expectSegment { return Err(EmptyKey); }
        expectSegment := true;
        i := i + 1;
        continue;
      }
      if c == '[' {
        if expectSegment && parts != [] { return Err(DotThenBracket); }
        var part, next := ScanBracket(path, i);
        if part.Err? { return Err(part.error); }
        if next < |path| && path[next] != '.' && path[next] != '[' { return Err(AfterBracket); }
        if |parts| + 1 > MAX_PARTS { return Err(TooManyParts); }
        BracketStep(path[i..], parts, expectSegment, part.value, path[next..]);
        parts := parts + [part.value];
        i := next;
      } else {
        if !expectSegment { return Err(MissingDot); }
        var part, next := ScanKey(path, i);
        if part.Err? { return Err(part.error); }
        if |parts| + 1 > MAX_PARTS { return Err(TooManyParts); }
        BareKeyStep(path[i..], parts, next - i);
        parts := parts + [part.value];
        i := next;
      }
      expectSegment := false;
    }
    if |path| > 0 && expectSegment { return Err(EndsWithDot); }
    return Ok(parts);
  }
}
