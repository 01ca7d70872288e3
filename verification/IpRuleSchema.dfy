// Which rules can be stored (packages/shared/src/schemas/ip-rule.ts), and what the
// family-gap check reports on them.
module IpRuleSchema {
  import opened Basics
  import opened Text
  import opened Numerals
  import opened Bits
  import opened Ipv6Text
  import opened Ipv6
  import opened IpMatch
  import opened IpTheorems
  import opened IpSpelling
  import opened IpCatchAll

  const MAX_CIDR_LENGTH: nat := 49

  // 25[0-5]|2[0-4][0-9]|[01]?[0-9][0-9]?
  predicate FitsOctet(s: string) {
    || (|s| == 3 && s[0] == '2' && s[1] == '5' && '0' <= s[2] <= '5')
    || (|s| == 3 && s[0] == '2' && '0' <= s[1] <= '4' && IsDigit(s[2]))
    || (|s| == 3 && '0' <= s[0] <= '1' && IsDigit(s[1]) && IsDigit(s[2]))
    || (|s| == 2 && IsDigit(s[0]) && IsDigit(s[1]))
    || (|s| == 1 && IsDigit(s[0]))
  }

  // 3[0-2]|[1-2][0-9]|[0-9]
  predicate IsIpv4Prefix(s: string) {
    || (|s| == 2 && s[0] == '3' && '0' <= s[1] <= '2')
    || (|s| == 2 && '1' <= s[0] <= '2' && IsDigit(s[1]))
    || (|s| == 1 && IsDigit(s[0]))
  }

  predicate IsOctets(s: string) {
    var parts := Split(s, '.');
    |parts| == 4 && forall k | 0 <= k < 4 :: FitsOctet(parts[k])
  }

  // The IPv4 expression: four octets, and a prefix behind a slash if there is one.
  predicate IsIpv4Rule(value: string) {
    IsOctets(AddressPart(value)) && (PrefixPart(value).Some? ==> IsIpv4Prefix(PrefixPart(value).value))
  }

  predicate Accepts(input: string) {
    var value := Trim(input);
    && 1 <= |value| <= MAX_CIDR_LENGTH
    && (IsIpv4Rule(value) || (':' in value && ParseIpv6Cidr(value).Accepted?))
  }

  // The text the rule is kept as.
  function Stored(input: string): string
    requires Accepts(input)
  {
    var value := Trim(input);
    if IsIpv4Rule(value) then value else ParseIpv6Cidr(value).canonical
  }

  ghost predicate IsStored(cidr: string) { exists input :: Accepts(input) && Stored(input) == cidr }

  // --------------------------------------------------------------------
  // What the expressions mean
  // --------------------------------------------------------------------

  lemma ValueOfDigits(s: string)
    requires 1 <= |s| <= 3 && AllDigits(s)
    ensures |s| == 1 ==> DigitsValue(s) == (s[0] - '0') as nat
    ensures |s| == 2 ==> DigitsValue(s) == 10 * (s[0] - '0') as nat + (s[1] - '0') as nat
    ensures |s| == 3 ==> DigitsValue(s) == 100 * (s[0] - '0') as nat + 10 * (s[1] - '0') as nat + (s[2] - '0') as nat
  {
    var front := s[..|s| - 1];
    assert AllDigits(front);
    if |s| > 1 { ValueOfDigits(front); } else { assert front == ""; }
  }

  // The octet expression is the matcher's own: one to three digits up to 255.
  lemma OctetExactly(s: string)
    ensures FitsOctet(s) <==> IsShortNumber(s) && DigitsValue(s) <= 255
  {
    if FitsOctet(s) { assert AllDigits(s); }
    if 1 <= |s| <= 3 && AllDigits(s) { ValueOfDigits(s); }
  }

  // The prefix expression is the numbers up to 32, written without leading zeros.
  lemma Ipv4PrefixExactly(s: string)
    ensures IsIpv4Prefix(s) <==> 1 <= |s| <= 2 && AllDigits(s) && DigitsValue(s) <= 32 && (|s| == 2 ==> s[0] != '0')
  {
    if IsIpv4Prefix(s) { assert AllDigits(s); }
    if 1 <= |s| <= 3 && AllDigits(s) { ValueOfDigits(s); }
  }

  predicate AreShortNumbers(parts: seq<string>) { forall k | 0 <= k < |parts| :: IsShortNumber(parts[k]) }

  // Between numbers there are only dots.
  predicate IsDotted(s: string) { forall i | 0 <= i < |s| :: IsDigit(s[i]) || s[i] == '.' }

  lemma DottedConcat(s: string, front: string, rest: string)
    requires s == front + ['.'] + rest && AllDigits(front) && IsDotted(rest)
    ensures IsDotted(s)
  {
  }

  // Between numbers there are only dots.
  lemma {:induction false} DottedNumbers(s: string)
    requires AreShortNumbers(Split(s, '.'))
    ensures IsDotted(s)
    decreases |s|
  {
    var found, front, rest := CutFirst(s, '.');
    assert IsShortNumber(Split(s, '.')[0]);
    if found {
      assert Split(s, '.')[1..] == Split(rest, '.');
      DottedNumbers(rest);
      DottedConcat(s, front, rest);
    }
  }

  lemma OctetsArePlain(s: string)
    requires IsOctets(s)
    ensures AllPlain(s) && Lacks(s, ':') && Lacks(s, '/') && Ipv4Number(s).Some?
  {
    forall k | 0 <= k < 4 ensures IsShortNumber(Split(s, '.')[k]) && DigitsValue(Split(s, '.')[k]) <= 255 {
      OctetExactly(Split(s, '.')[k]);
    }
    DottedNumbers(s);
  }

  lemma PartsOfText(value: string)
    ensures PrefixPart(value).None? ==> value == AddressPart(value)
    ensures PrefixPart(value).Some? ==> value == AddressPart(value) + "/" + PrefixPart(value).value
  {
    FirstChar(value, '/');
  }

  lemma Ipv4PartsArePlain(value: string)
    requires IsIpv4Rule(value)
    ensures AllPlain(AddressPart(value)) && Lacks(AddressPart(value), ':')
    ensures PrefixPart(value).Some? ==> AllPlain(PrefixPart(value).value) && Lacks(PrefixPart(value).value, ':')
  {
    OctetsArePlain(AddressPart(value));
    if PrefixPart(value).Some? {
      assert AllDigits(PrefixPart(value).value);
      DigitsArePlain(PrefixPart(value).value);
    }
  }

  lemma Ipv4RuleIsPlain(value: string)
    requires IsIpv4Rule(value)
    ensures AllPlain(value) && Lacks(value, ':') && Shown(value) == value && Trim(value) == value
  {
    Ipv4PartsArePlain(value);
    PartsOfText(value);
    PlainIsShown(value);
  }

  // --------------------------------------------------------------------
  // Catch-alls among the stored rules
  // --------------------------------------------------------------------

  lemma NoDotsIsNoIpv4(s: string)
    requires Lacks(s, '.')
    ensures Ipv4Number(s).None?
  {
    FirstChar(s, '.');
  }

  lemma FirstPart(cidr: string, address: string, rest: string)
    requires cidr == address + "/" + rest && Lacks(address, '/')
    ensures '/' in cidr && Split(cidr, '/')[0] == address
  {
    assert cidr[|address|] == '/' && forall k | 0 <= k < |address| :: cidr[k] == address[k];
    FirstChar(cidr, '/');
    assert cidr[..|address|] == address;
  }

  lemma SlashedCoversNoIpv4(cidr: string, address: string, rest: string)
    requires cidr == address + "/" + rest && Lacks(address, '/') && Lacks(address, '.') && Shown(cidr) == cidr
    ensures !CoversFamily(cidr, IPv4)
  {
    FirstPart(cidr, address, rest);
    NoDotsIsNoIpv4(address);
    Ipv4RoundTrip(0);
    Ipv4RuleIsPrefixEquality(cidr, IntToIpv4(0));
    assert IsClient(IPv4, V4(IntToIpv4(0))) && !Contains(V4(IntToIpv4(0)), cidr);
  }

  lemma BareCoversNoIpv4(cidr: string)
    requires '/' !in Shown(cidr)
    ensures !CoversFamily(cidr, IPv4)
  {
    var missed := SingleAddressMisses(cidr);
  }

  lemma CanonicalCoversNoIpv4(cidr: string)
    requires ParseIpv6Cidr(cidr).Accepted?
    ensures ':' in Shown(ParseIpv6Cidr(cidr).canonical) && !CoversFamily(ParseIpv6Cidr(cidr).canonical, IPv4)
  {
    var canonical, prefix := ParseIpv6Cidr(cidr).canonical, ParseIpv6Cidr(cidr).prefix;
    var address := TextOf(ToBigInt(AddressPart(Trim(cidr))).value);
    ToBigIntBound(AddressPart(Trim(cidr)));
    TextOfIsPlain(ToBigInt(AddressPart(Trim(cidr))).value);
    if PrefixPart(Trim(cidr)).None? {
      PlainIsShown(canonical);
      BareCoversNoIpv4(canonical);
    } else {
      DigitsArePlain(Decimal(prefix));
      assert canonical == address + "/" + Decimal(prefix);
      PlainIsShown(canonical);
      SlashedCoversNoIpv4(canonical, address, Decimal(prefix));
    }
  }

  // On every rule the schema lets in, the check finds exactly the rules that match
  // every client of the family.
  lemma StoredCatchAllExactly(cidr: string, family: Family)
    requires IsStored(cidr)
    ensures CatchAllFamily(cidr) == Some(family) <==> CoversFamily(cidr, family)
  {
    var input :| Accepts(input) && Stored(input) == cidr;
    var value := Trim(input);
    CatchAllExactly(cidr, family);
    if IsIpv4Rule(value) {
      Ipv4RuleIsPlain(value);
    } else {
      CanonicalCoversNoIpv4(value);
    }
  }

  // --------------------------------------------------------------------
  // A rule that validates can match
  // --------------------------------------------------------------------

  lemma PrefixIsSmall(prefix: string)
    requires IsIpv4Prefix(prefix)
    ensures AllDigits(prefix) && prefix != "" && DigitsValue(prefix) <= 32
  {
    ValueOfDigits(prefix);
  }

  lemma DigitsAreParsed(s: string)
    requires s != "" && AllDigits(s)
    ensures ParseInt(s) == Some(DigitsValue(s))
  {
    DigitsLengthIs(s, s, "");
    assert IsDigit(s[0]) && TrimStart(s) == s && s[..|s|] == s;
  }

  lemma SmallPrefix(prefix: string)
    requires IsIpv4Prefix(prefix)
    ensures AllDigits(prefix) && DigitsValue(prefix) <= 32 && ParseInt(prefix) == Some(DigitsValue(prefix))
  {
    PrefixIsSmall(prefix);
    DigitsAreParsed(prefix);
  }

  lemma OctetsAreAClient(address: string)
    requires IsOctets(address)
    ensures Classify(address) == V4(address)
  {
    OctetsArePlain(address);
    PlainIsShown(address);
    assert address == "" || address[0] != ':';
  }

  lemma SlashedIpv4RuleMatches(value: string, address: string, prefix: string)
    requires value == address + "/" + prefix && Shown(value) == value
    requires IsOctets(address) && IsIpv4Prefix(prefix)
    ensures CidrContains(value, address)
  {
    OctetsArePlain(address);
    SmallPrefix(prefix);
    SplitsAtSlash(value, address, prefix);
    assert value[|address|] == '/';
    Ipv4RuleIsPrefixEquality(value, address);
  }

  // A stored rule matches the client whose text is the rule's address as it was written.
  lemma StoredRuleMatchesItsAddress(input: string)
    requires Accepts(input)
    ensures Contains(Classify(AddressPart(Trim(input))), Stored(input))
  {
    var value := Trim(input);
    var address := AddressPart(value);
    TrimTrims(input);
    if IsIpv4Rule(value) {
      Ipv4RuleIsPlain(value);
      OctetsAreAClient(address);
      PartsOfText(value);
      if PrefixPart(value).Some? {
        SlashedIpv4RuleMatches(value, address, PrefixPart(value).value);
      } else {
        OctetsArePlain(address);
      }
    } else {
      AcceptedRuleMatchesItsAddress(value);
      CanonicalIsTheSameRule(value);
    }
  }

  // --------------------------------------------------------------------
  // Leading zeros
  // --------------------------------------------------------------------

  predicate HasLeadingZero(s: string) { |s| > 1 && s[0] == '0' }

  lemma {:induction false} DecimalHasNone(n: nat)
    ensures !HasLeadingZero(Decimal(n)) && (n > 0 ==> Decimal(n)[0] != '0')
  {
    if n >= 10 { DecimalHasNone(n / 10); }
  }

  lemma DecimalOfMore(v: nat, last: char)
    requires v > 0 && IsDigit(last)
    ensures Decimal(10 * v + (last - '0') as nat) == Decimal(v) + [last]
  {
    var n := 10 * v + (last - '0') as nat;
    assert n / 10 == v && n % 10 == (last - '0') as nat;
  }

  lemma ValueOfMore(s: string, front: string, last: char)
    requires s == front + [last] && AllDigits(front) && IsDigit(last)
    ensures AllDigits(s) && DigitsValue(s) == 10 * DigitsValue(front) + (last - '0') as nat
  {
    assert s[..|s| - 1] == front;
  }

  lemma OneDigitNumeral(s: string)
    requires |s| == 1 && IsDigit(s[0]) && s[0] != '0'
    ensures AllDigits(s) && DigitsValue(s) > 0 && Decimal(DigitsValue(s)) == s
  {
    ValueOfDigits(s);
  }

  lemma {:induction false} PositiveNumeral(s: string)
    requires s != "" && AllDigits(s) && s[0] != '0'
    ensures DigitsValue(s) > 0 && Decimal(DigitsValue(s)) == s
  {
    if |s| == 1 {
      OneDigitNumeral(s);
    } else {
      var n := |s| - 1;
      var front, last := s[..n], s[n];
      FrontAndLast(s, n);
      PositiveNumeral(front);
      ValueOfMore(s, front, last);
      DecimalOfMore(DigitsValue(front), last);
    }
  }

  // Printing a numeral's value gives the numeral back exactly when no zero leads it.
  lemma NumeralIsPrintedExactly(s: string)
    requires s != "" && AllDigits(s)
    ensures Decimal(DigitsValue(s)) == s <==> !HasLeadingZero(s)
  {
    DecimalHasNone(DigitsValue(s));
    if s[0] != '0' {
      PositiveNumeral(s);
    } else if |s| == 1 {
      assert s[..0] == "" && DigitsValue(s) == 0;
    }
  }

  function Ipv4Value(address: string): (n: nat)
    requires IsOctets(address)
    ensures n < TWO_32 && Ipv4Number(address) == Some(n)
  {
    OctetsArePlain(address);
    Ipv4NumberBound(address);
    TwoToThe32();
    Ipv4Number(address).value
  }

  // The parts as they are printed.
  function Printed(parts: seq<string>): (p: seq<string>)
    requires forall k | 0 <= k < |parts| :: AllDigits(parts[k])
    ensures |p| == |parts| && forall k | 0 <= k < |p| :: p[k] == Decimal(DigitsValue(parts[k])) && Lacks(p[k], '.')
  {
    seq(|parts|, k requires 0 <= k < |parts| => Decimal(DigitsValue(parts[k])))
  }

  // The canonical text of four octets.
  lemma PrintedOctets(parts: seq<string>, n: nat)
    requires |parts| == 4 && AreOctets(parts) && n == OctetsValue(parts) < TWO_32
    ensures forall k | 0 <= k < 4 :: AllDigits(parts[k])
    ensures IntToIpv4(n) == Join(Printed(parts), ".")
  {
    var a, b, c, d := parts[0], parts[1], parts[2], parts[3];
    assert parts == [a, b, c, d];
    FourOctets(a, b, c, d);
    BytesOf(n);
    BytesAreUnique(Shr(n, 24), And(Shr(n, 16), 255), And(Shr(n, 8), 255), And(n, 255),
                   DigitsValue(a), DigitsValue(b), DigitsValue(c), DigitsValue(d));
    assert Printed(parts) == [Decimal(DigitsValue(a)), Decimal(DigitsValue(b)), Decimal(DigitsValue(c)),
                              Decimal(DigitsValue(d))];
  }

  lemma PrintedIsSameExactly(parts: seq<string>)
    requires forall k | 0 <= k < |parts| :: parts[k] != "" && AllDigits(parts[k])
    ensures Printed(parts) == parts <==> forall k | 0 <= k < |parts| :: !HasLeadingZero(parts[k])
  {
    forall k | 0 <= k < |parts| ensures Printed(parts)[k] == parts[k] <==> !HasLeadingZero(parts[k]) {
      NumeralIsPrintedExactly(parts[k]);
    }
  }

  lemma SameParts(x: seq<string>, y: seq<string>)
    requires |x| == |y| == 4 && forall k | 0 <= k < 4 :: Lacks(x[k], '.') && Lacks(y[k], '.')
    ensures Join(x, ".") == Join(y, ".") <==> x == y
  {
    SplitOfJoin(x, '.');
    SplitOfJoin(y, '.');
  }

  predicate AnyLeadingZero(address: string) {
    exists k | 0 <= k < |Split(address, '.')| :: HasLeadingZero(Split(address, '.')[k])
  }

  lemma OctetParts(address: string)
    requires IsOctets(address)
    ensures AreOctets(Split(address, '.')) && OctetsValue(Split(address, '.')) == Ipv4Value(address)
    ensures forall k | 0 <= k < 4 :: var part := Split(address, '.')[k];
              part != "" && AllDigits(part) && Lacks(part, '.')
  {
    OctetsArePlain(address);
    forall k | 0 <= k < 4 ensures IsShortNumber(Split(address, '.')[k]) { OctetExactly(Split(address, '.')[k]); }
  }

  // An address is written as it is printed exactly when no octet has a leading zero.
  lemma CanonicalExactly(address: string)
    requires IsOctets(address)
    ensures IntToIpv4(Ipv4Value(address)) == address <==> !AnyLeadingZero(address)
  {
    var parts := Split(address, '.');
    OctetParts(address);
    PrintedOctets(parts, Ipv4Value(address));
    JoinOfSplit(address, '.');
    PrintedIsSameExactly(parts);
    SameParts(Printed(parts), parts);
  }

  lemma SlashedIpv4RuleMatchesAll(value: string, address: string, prefix: string, client: string)
    requires value == address + "/" + prefix && Shown(value) == value
    requires IsOctets(address) && IsIpv4Prefix(prefix) && Ipv4Number(client) == Ipv4Number(address)
    ensures CidrContains(value, client)
  {
    OctetsArePlain(address);
    SmallPrefix(prefix);
    SplitsAtSlash(value, address, prefix);
    assert value[|address|] == '/';
    Ipv4RuleIsPrefixEquality(value, client);
  }

  // An IPv4 rule matches the client at its own address, in the text a client has,
  // exactly when the rule has a prefix or no octet with a leading zero: without a slash
  // the two are compared as texts.
  lemma Ipv4RuleMatchesItsAddressExactly(input: string)
    requires Accepts(input) && IsIpv4Rule(Trim(input))
    ensures Contains(Classify(IntToIpv4(Ipv4Value(AddressPart(Trim(input))))), Stored(input))
       <==> PrefixPart(Trim(input)).Some? || !AnyLeadingZero(AddressPart(Trim(input)))
  {
    var value := Trim(input);
    var address, client := AddressPart(value), IntToIpv4(Ipv4Value(AddressPart(value)));
    Ipv4RuleIsPlain(value);
    PartsOfText(value);
    Ipv4TextIsItsOwnClient(Ipv4Value(address));
    Ipv4RoundTrip(Ipv4Value(address));
    if PrefixPart(value).Some? {
      SlashedIpv4RuleMatchesAll(value, address, PrefixPart(value).value, client);
    } else {
      OctetsArePlain(address);
      CanonicalExactly(address);
    }
  }

  lemma SlashedIpv4RuleIsItsSubnet(value: string, address: string, prefix: string, client: string)
    requires value == address + "/" + prefix && Shown(value) == value
    requires IsOctets(address) && IsIpv4Prefix(prefix)
    ensures AllDigits(prefix) && DigitsValue(prefix) <= 32
    ensures CidrContains(value, client)
       <==> && Ipv4Number(client).Some?
            && SamePrefix(Ipv4Number(client).value, Ipv4Value(address), DigitsValue(prefix), 32)
  {
    OctetsArePlain(address);
    SmallPrefix(prefix);
    SplitsAtSlash(value, address, prefix);
    assert value[|address|] == '/';
    Ipv4RuleIsPrefixEquality(value, client);
  }

  // A stored IPv4 rule with a prefix matches exactly the addresses that agree with its
  // own in as many leading bits as the digits behind the slash say.
  lemma StoredSubnetMatchesExactly(input: string, client: string)
    requires Accepts(input) && IsIpv4Rule(Trim(input)) && PrefixPart(Trim(input)).Some?
    ensures AllDigits(PrefixPart(Trim(input)).value) && DigitsValue(PrefixPart(Trim(input)).value) <= 32
    ensures CidrContains(Stored(input), client)
       <==> && Ipv4Number(client).Some?
            && SamePrefix(Ipv4Number(client).value, Ipv4Value(AddressPart(Trim(input))),
                          DigitsValue(PrefixPart(Trim(input)).value), 32)
  {
    var value := Trim(input);
    Ipv4RuleIsPlain(value);
    PartsOfText(value);
    SlashedIpv4RuleIsItsSubnet(value, AddressPart(value), PrefixPart(value).value, client);
  }

  lemma {:induction false} JoinedLength(parts: seq<string>)
    requires forall k | 0 <= k < |parts| :: |parts[k]| <= 3
    ensures |Join(parts, ".")| <= 4 * |parts| && (parts != [] ==> |Join(parts, ".")| < 4 * |parts|)
  {
    if |parts| > 1 { JoinedLength(parts[1..]); }
  }

  lemma OctetsOf(s: string, parts: seq<string>)
    requires |parts| == 4 && s == Join(parts, ".") && forall k | 0 <= k < 4 :: FitsOctet(parts[k])
    ensures AreOctets(parts) && IsOctets(s) && Split(s, '.') == parts && |s| <= 15
    ensures Ipv4Value(s) == OctetsValue(parts)
  {
    forall k | 0 <= k < 4 ensures IsShortNumber(parts[k]) && DigitsValue(parts[k]) <= 255 { OctetExactly(parts[k]); }
    SplitOfJoin(parts, '.');
    JoinedLength(parts);
    OctetParts(s);
  }

  lemma AcceptedIpv4(address: string, prefix: string)
    requires IsOctets(address) && |address| <= 15 && IsIpv4Prefix(prefix)
    ensures Accepts(address) && Trim(address) == address && IsIpv4Rule(address)
    ensures AddressPart(address) == address && PrefixPart(address).None?
    ensures var rule := address + "/" + prefix;
            && Accepts(rule) && Trim(rule) == rule && IsIpv4Rule(rule)
            && AddressPart(rule) == address && PrefixPart(rule) == Some(prefix)
  {
    OctetsArePlain(address);
    PartsOfCanonical(address, prefix);
    Ipv4RuleIsPlain(address);
    Ipv4RuleIsPlain(address + "/" + prefix);
    assert address != "" by { FirstChar("", '.'); }
  }

  lemma TenOneValue(first: string)
    requires first == "10" || first == "010"
    ensures forall k | 0 <= k < 4 :: FitsOctet([first, "0", "0", "1"][k])
    ensures AreOctets([first, "0", "0", "1"]) && OctetsValue([first, "0", "0", "1"]) == 0x0a00_0001
  {
    OctetExactly(first);
    OctetExactly("0");
    OctetExactly("1");
    ValueOfDigits(first);
    ValueOfDigits("0");
    ValueOfDigits("1");
    FourOctets(first, "0", "0", "1");
  }

  // A rule with a leading zero misses the client whose address it is, with a prefix
  // behind it the rule matches it.
  lemma LeadingZeroMisses(rule: string, client: string, prefix: string)
    requires IsOctets(rule) && |rule| <= 15 && AnyLeadingZero(rule) && IsIpv4Prefix(prefix)
    requires client == IntToIpv4(Ipv4Value(rule))
    ensures Accepts(rule) && Accepts(rule + "/" + prefix)
    ensures !Contains(Classify(client), Stored(rule)) && Contains(Classify(client), Stored(rule + "/" + prefix))
  {
    AcceptedIpv4(rule, prefix);
    Ipv4RuleMatchesItsAddressExactly(rule);
    Ipv4RuleMatchesItsAddressExactly(rule + "/" + prefix);
  }

  lemma TenOneIsPrinted(client: string)
    requires client == Join(["10", "0", "0", "1"], ".")
    ensures client == IntToIpv4(0x0a00_0001) && Ipv4Number(client) == Some(0x0a00_0001)
  {
    TenOneValue("10");
    OctetsOf(client, ["10", "0", "0", "1"]);
    NoneLeads(client, ["10", "0", "0", "1"]);
    CanonicalExactly(client);
  }

  lemma NoneLeads(address: string, parts: seq<string>)
    requires parts == Split(address, '.') && forall k | 0 <= k < |parts| :: !HasLeadingZero(parts[k])
    ensures !AnyLeadingZero(address)
  {
  }

  lemma TenOneWithZero(rule: string)
    requires rule == Join(["010", "0", "0", "1"], ".")
    ensures IsOctets(rule) && |rule| <= 15 && AnyLeadingZero(rule) && Ipv4Value(rule) == 0x0a00_0001
  {
    TenOneValue("010");
    OctetsOf(rule, ["010", "0", "0", "1"]);
    assert HasLeadingZero(Split(rule, '.')[0]);
  }

  // So 010.0.0.1 validates and misses the client 10.0.0.1, whose number it has;
  // 010.0.0.1/32 matches it.
  lemma LeadingZeroRuleMisses(rule: string, client: string, prefixed: string)
    requires rule == Join(["010", "0", "0", "1"], ".") && client == Join(["10", "0", "0", "1"], ".")
    requires prefixed == rule + "/" + "32"
    ensures Accepts(rule) && Accepts(prefixed) && Ipv4Number(rule) == Ipv4Number(client) == Some(0x0a00_0001)
    ensures !Contains(Classify(client), Stored(rule)) && Contains(Classify(client), Stored(prefixed))
  {
    TenOneWithZero(rule);
    TenOneIsPrinted(client);
    LeadingZeroMisses(rule, client, "32");
  }

  // --------------------------------------------------------------------
  // The gap reported on a list of stored rules
  // --------------------------------------------------------------------

  ghost function Covers(family: Family): string -> bool { cidr => CoversFamily(cidr, family) }

  // Rule `k` is the first of its kind.
  ghost predicate IsFirst(rules: seq<Rule>, kind: string -> bool, k: nat) {
    k < |rules| && kind(rules[k].cidr) && forall j | 0 <= j < k :: !kind(rules[j].cidr)
  }

  ghost predicate HasNone(rules: seq<Rule>, kind: string -> bool) {
    forall j | 0 <= j < |rules| :: !kind(rules[j].cidr)
  }

  ghost predicate DeniesFirst(rules: seq<Rule>, kind: string -> bool) {
    exists k: nat :: IsFirst(rules, kind, k) && rules[k].action == DENY
  }

  // The check tells the rules of this kind from the others.
  ghost predicate IsFound(rules: seq<Rule>, family: Family, kind: string -> bool) {
    forall k | 0 <= k < |rules| :: kind(rules[k].cidr) <==> CatchAllFamily(rules[k].cidr) == Some(family)
  }

  ghost function FirstOf(rules: seq<Rule>, kind: string -> bool): Option<Rule> {
    if rules == [] then None
    else if kind(rules[0].cidr) then Some(rules[0])
    else FirstOf(rules[1..], kind)
  }

  lemma {:induction false} FirstOfIs(rules: seq<Rule>, kind: string -> bool) returns (k: nat)
    ensures k == |rules| ==> FirstOf(rules, kind).None? && HasNone(rules, kind)
    ensures k != |rules| ==> IsFirst(rules, kind, k) && FirstOf(rules, kind) == Some(rules[k])
  {
    if rules == [] || kind(rules[0].cidr) {
      k := 0;
    } else {
      assert forall j | 0 < j < |rules| :: rules[j] == rules[1..][j - 1];
      var later := FirstOfIs(rules[1..], kind);
      k := later + 1;
    }
  }

  lemma FoundInRest(rules: seq<Rule>, family: Family, kind: string -> bool)
    requires IsFound(rules, family, kind) && rules != []
    ensures IsFound(rules[1..], family, kind)
  {
    assert forall j | 0 <= j < |rules[1..]| :: rules[1..][j] == rules[j + 1];
  }

  lemma {:induction false} FirstOfIsFirstCatchAll(rules: seq<Rule>, family: Family, kind: string -> bool)
    requires IsFound(rules, family, kind)
    ensures FirstCatchAll(rules, family) == FirstOf(rules, kind)
  {
    if rules != [] {
      FoundInRest(rules, family, kind);
      FirstOfIsFirstCatchAll(rules[1..], family, kind);
    }
  }

  lemma DeniesFirstExactly(rules: seq<Rule>, kind: string -> bool)
    ensures DeniesFirst(rules, kind) <==> FirstOf(rules, kind).Some? && FirstOf(rules, kind).value.action == DENY
    ensures HasNone(rules, kind) <==> FirstOf(rules, kind).None?
  {
    var first := FirstOfIs(rules, kind);
    if k: nat :| IsFirst(rules, kind, k) { assert k == first; }
  }

  lemma GapOfKinds(rules: seq<Rule>, family: Family, own: string -> bool, other: string -> bool)
    requires IsFound(rules, family, own) && IsFound(rules, Other(family), other)
    ensures GapIn(rules).Some? && GapIn(rules).value.family == family
       <==> DeniesFirst(rules, own) && HasNone(rules, other)
  {
    FirstOfIsFirstCatchAll(rules, family, own);
    FirstOfIsFirstCatchAll(rules, Other(family), other);
    DeniesFirstExactly(rules, own);
    DeniesFirstExactly(rules, other);
  }

  lemma StoredAreFound(rules: seq<Rule>, family: Family)
    requires forall k | 0 <= k < |rules| :: IsStored(rules[k].cidr)
    ensures IsFound(rules, family, Covers(family))
  {
    forall k | 0 <= k < |rules|
      ensures Covers(family)(rules[k].cidr) == (CatchAllFamily(rules[k].cidr) == Some(family))
    {
      StoredCatchAllExactly(rules[k].cidr, family);
    }
  }

  // A gap is reported for a family exactly when the first rule that matches all of its
  // clients denies them and no rule matches all clients of the other family.
  lemma GapIsReportedExactly(rules: seq<Rule>, family: Family)
    requires forall k | 0 <= k < |rules| :: IsStored(rules[k].cidr)
    ensures GapIn(rules).Some? && GapIn(rules).value.family == family
       <==> DeniesFirst(rules, Covers(family)) && HasNone(rules, Covers(Other(family)))
  {
    StoredAreFound(rules, family);
    StoredAreFound(rules, Other(family));
    GapOfKinds(rules, family, Covers(family), Covers(Other(family)));
  }

  // --------------------------------------------------------------------
  // What cannot be stored
  // --------------------------------------------------------------------

  lemma OctetsAreNotIpv6(s: string)
    requires Lacks(s, ':')
    ensures ToBigInt(s).None?
  {
    if ParseHost(s).Some? { AddressesLookLikeIpv6(s); }
  }

  lemma ZeroLacksColon(subnet: string)
    requires subnet == IntToIpv4(0)
    ensures Lacks(subnet, ':')
  {
    ShrZero(24);
    ShrZero(16);
    ShrZero(8);
    assert And(0, 255) == 0 && AllDigits(Decimal(0));
    JoinLacks([Decimal(0), Decimal(0), Decimal(0), Decimal(0)], ".", ':');
  }

  // 0.0.0.0/0 with a colon behind it, which the matcher would take for a catch-all and
  // the check would not, is refused.
  lemma ColonRuleIsRefused(cidr: string, subnet: string, prefix: string)
    requires subnet == IntToIpv4(0) && prefix == "0:" && cidr == subnet + "/" + prefix
    ensures !Accepts(cidr)
  {
    ZeroSubnet(subnet);
    ColonAfterZeroIsZero(prefix);
    ColonRuleText(cidr, subnet, prefix);
    PartsOfCanonical(subnet, prefix);
    ZeroLacksColon(subnet);
    OctetsAreNotIpv6(subnet);
    if IsIpv4Rule(cidr) { Ipv4RuleIsPlain(cidr); }
  }
}
