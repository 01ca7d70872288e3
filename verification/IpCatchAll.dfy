// Catch-all rules and the family gap: a rule the check calls a catch-all is one that
// matches every client of its family, and without a gap nobody is left undecided.
module IpCatchAll {
  import opened Basics
  import opened Text
  import opened Numerals
  import opened Bits
  import opened Ipv6Text
  import opened Ipv6
  import opened IpMatch
  import opened IpTheorems
  import opened IpSpelling

  // A client with an address of this family, as Classify sorts them.
  predicate IsClient(family: Family, client: Client) {
    match client
    case V4(text) => family == IPv4 && Ipv4Number(text).Some?
    case V6(value) => family == IPv6 && value < Pow2(128) && !IsMapped(value)
  }

  lemma EveryAddressIsAClient(ip: string)
    ensures Classify(ip).V6? ==> IsClient(IPv6, Classify(ip))
    ensures ToBigInt(Shown(ip)).Some? ==> IsClient(IPv6, Classify(ip)) || IsClient(IPv4, Classify(ip))
  {
    ClassifiedValue(ip);
    if ToBigInt(Shown(ip)).Some? {
      AddressesLookLikeIpv6(Shown(ip));
      var value := ToBigInt(Shown(ip)).value;
      if IsMapped(value) {
        MappedClientIsItsIpv4(ip, value);
        LowBitsBound(value);
        Ipv4RoundTrip(And(value, 0xffff_ffff));
      } else if MAPPED <= Shown(ip) && IsDottedText(Shown(ip)[7..]) {
        DottedTailIsMapped(Shown(ip), value);
      }
    }
  }

  // --------------------------------------------------------------------
  // A number whose leading bit is not the one given
  // --------------------------------------------------------------------

  lemma TopBitDiffers(x: nat, width: nat) returns (w: nat)
    requires width > 0
    ensures w < Pow2(width) && Bit(w, width - 1) != Bit(x, width - 1)
    ensures w == 0 || w == Pow2(width - 1)
  {
    ShlPositive(1, width - 1);
    if Bit(x, width - 1) == 1 {
      w := 0;
      ShlPositive(1, width);
      ShrZero(width - 1);
    } else {
      w := Pow2(width - 1);
      ShrOfShl(1, 0, width - 1);
    }
  }

  lemma OtherHalf(x: nat, prefix: nat, width: nat) returns (w: nat)
    requires 0 < prefix <= width
    ensures w < Pow2(width) && !SamePrefix(w, x, prefix, width)
    ensures w == 0 || w == Pow2(width - 1)
  {
    w := TopBitDiffers(x, width);
  }

  lemma {:induction false} ShrZero(k: nat)
    ensures Shr(0, k) == 0
  {
    if k > 0 { ShrZero(k - 1); }
  }

  lemma TopBitIsNotMapped(w: nat)
    requires w == 0 || w == Pow2(127)
    ensures !IsMapped(w)
  {
    if w == 0 {
      ShrZero(32);
    } else {
      ShrOfShl(1, 0, 127);
      ShlPositive(1, 127);
      ShrAdd(w, 32, 95);
      SmallShift();
    }
  }

  lemma SmallShift()
    ensures Shr(0xffff, 95) == 0
  {
    ShrAdd(0xffff, 16, 79);
    SixteenBits();
    ShlZero(16);
    ShrOfShl(0, 0xffff, 16);
    ShrZero(79);
  }

  // --------------------------------------------------------------------
  // Catch-alls match everyone, and only they do
  // --------------------------------------------------------------------

  // What the check's branches ask of a rule, family by family.
  lemma Ipv6CatchAllAsks(cidr: string)
    ensures CatchAllFamily(cidr) == Some(IPv6)
       <==> && '/' in Shown(cidr) && ':' in Shown(cidr)
            && ParseIpv6Cidr(Shown(cidr)).Accepted? && ParseIpv6Cidr(Shown(cidr)).prefix == 0
  {
  }

  lemma Ipv4CatchAllAsks(cidr: string)
    ensures CatchAllFamily(cidr) == Some(IPv4)
       <==> && '/' in Shown(cidr) && ':' !in Shown(cidr)
            && Subnet(cidr).Some? && Subnet(cidr).value.1 == 0
  {
    EmptyTextsAreRefused();
  }

  lemma CatchAllMatches6(cidr: string, value: nat)
    requires CatchAllFamily(cidr) == Some(IPv6) && value < Pow2(128)
    ensures Ipv6CidrContains(cidr, value)
  {
    Ipv6CatchAllAsks(cidr);
    ShownRuleIsTheSameRule(cidr);
    Ipv6RuleIsPrefixEquality(cidr, value);
  }

  lemma CatchAllMatches4(cidr: string, text: string)
    requires CatchAllFamily(cidr) == Some(IPv4) && IsClient(IPv4, V4(text))
    ensures CidrContains(cidr, text)
  {
    Ipv4CatchAllAsks(cidr);
    Ipv4RuleIsPrefixEquality(cidr, text);
  }

  lemma CatchAllMatches(cidr: string, family: Family, client: Client)
    requires CatchAllFamily(cidr) == Some(family) && IsClient(family, client)
    ensures Contains(client, cidr)
  {
    match client
    case V6(value) => CatchAllMatches6(cidr, value);
    case V4(text) => CatchAllMatches4(cidr, text);
  }

  lemma OtherHalfIsMissed6(cidr: string, w: nat, address: nat, prefix: nat)
    requires ParseIpv6Cidr(cidr).Accepted? && ParseIpv6Cidr(cidr).prefix == prefix <= 128
    requires ToBigInt(AddressPart(Trim(cidr))) == Some(address)
    requires w < Pow2(128) && !SamePrefix(w, address, prefix, 128)
    ensures !Ipv6CidrContains(cidr, w)
  {
    Ipv6RuleIsPrefixEquality(cidr, w);
  }

  lemma OtherHalf6(address: nat, prefix: nat) returns (w: nat)
    requires 0 < prefix <= 128
    ensures w < Pow2(128) && !IsMapped(w) && !SamePrefix(w, address, prefix, 128)
  {
    w := OtherHalf(address, prefix, 128);
    TopBitIsNotMapped(w);
  }

  lemma AcceptedRule(cidr: string) returns (address: nat, prefix: nat)
    requires ParseIpv6Cidr(cidr).Accepted?
    ensures ToBigInt(AddressPart(Trim(cidr))) == Some(address) && ParseIpv6Cidr(cidr).prefix == prefix <= 128
  {
    address, prefix := ToBigInt(AddressPart(Trim(cidr))).value, ParseIpv6Cidr(cidr).prefix;
  }

  lemma NarrowIpv6RuleMisses(cidr: string) returns (w: nat)
    requires ParseIpv6Cidr(cidr).Accepted? && ParseIpv6Cidr(cidr).prefix > 0
    ensures w < Pow2(128) && !IsMapped(w)
    ensures !Ipv6CidrContains(cidr, w)
  {
    var address, prefix := AcceptedRule(cidr);
    w := OtherHalf6(address, prefix);
    OtherHalfIsMissed6(cidr, w, address, prefix);
  }

  lemma OtherHalfIsMissed(cidr: string, w: nat, subnet: nat, prefix: nat)
    requires '/' in Shown(cidr) && Subnet(cidr) == Some((subnet, prefix)) && prefix <= 32
    requires w < TWO_32 && !SamePrefix(w, subnet, prefix, 32)
    ensures IsClient(IPv4, V4(IntToIpv4(w))) && !Contains(V4(IntToIpv4(w)), cidr)
  {
    Ipv4RoundTrip(w);
    Ipv4RuleIsPrefixEquality(cidr, IntToIpv4(w));
  }

  lemma NarrowIpv4RuleMisses(cidr: string) returns (client: Client)
    requires '/' in Shown(cidr) && Subnet(cidr).Some? && Subnet(cidr).value.1 > 0
    ensures IsClient(IPv4, client) && !Contains(client, cidr)
  {
    var (subnet, prefix) := Subnet(cidr).value;
    TwoToThe32();
    var w := OtherHalf(subnet, prefix, 32);
    OtherHalfIsMissed(cidr, w, subnet, prefix);
    client := V4(IntToIpv4(w));
  }

  lemma SingleAddressMisses(cidr: string) returns (client: Client)
    requires '/' !in Shown(cidr)
    ensures IsClient(IPv4, client) && !Contains(client, cidr)
  {
    Ipv4RoundTrip(0);
    Ipv4RoundTrip(1);
    client := V4(if IntToIpv4(0) == Shown(cidr) then IntToIpv4(1) else IntToIpv4(0));
  }

  ghost predicate CoversFamily(cidr: string, family: Family) {
    forall client | IsClient(family, client) :: Contains(client, cidr)
  }

  lemma SlashIsShown(cidr: string)
    requires PrefixPart(Trim(cidr)).Some?
    ensures '/' in Shown(cidr)
  {
    FirstChar(Trim(cidr), '/');
    var k := IndexOf(Trim(cidr), "/", 0);
    assert Shown(cidr)[k] == Lower(Trim(cidr)[k]);
  }

  lemma ColonIsShown(cidr: string)
    requires ToBigInt(AddressPart(Trim(cidr))).Some?
    ensures ':' in Shown(cidr)
  {
    var text := Trim(cidr);
    AddressesLookLikeIpv6(AddressPart(text));
    var k :| 0 <= k < |AddressPart(text)| && AddressPart(text)[k] == ':';
    assert text[k] == ':' && Shown(cidr)[k] == Lower(text[k]);
  }

  lemma NarrowIpv6RuleCoversLess(cidr: string)
    requires ParseIpv6Cidr(cidr).Accepted? && ParseIpv6Cidr(cidr).prefix > 0
    ensures !CoversFamily(cidr, IPv6)
  {
    var w := NarrowIpv6RuleMisses(cidr);
    assert IsClient(IPv6, V6(w)) && !Contains(V6(w), cidr);
  }

  lemma ZeroPrefixIsWritten(cidr: string)
    requires ParseIpv6Cidr(cidr).Accepted? && ParseIpv6Cidr(cidr).prefix == 0
    ensures PrefixPart(Trim(cidr)).Some? && ToBigInt(AddressPart(Trim(cidr))).Some?
  {
  }

  lemma CoveringRuleIsAccepted(cidr: string)
    requires CoversFamily(cidr, IPv6)
    ensures ParseIpv6Cidr(cidr).Accepted?
  {
    TopBitIsNotMapped(0);
    ShlPositive(1, 128);
    assert IsClient(IPv6, V6(0));
    assert Contains(V6(0), cidr);
  }

  lemma CoveringIpv6RuleIsFound(cidr: string)
    requires CoversFamily(cidr, IPv6)
    ensures CatchAllFamily(cidr) == Some(IPv6)
  {
    CoveringRuleIsAccepted(cidr);
    if ParseIpv6Cidr(cidr).prefix > 0 { NarrowIpv6RuleCoversLess(cidr); }
    ZeroPrefixIsWritten(cidr);
    SlashIsShown(cidr);
    ColonIsShown(cidr);
    ShownRuleIsTheSameRule(cidr);
    Ipv6CatchAllAsks(cidr);
  }

  // For IPv6 the check finds exactly the rules that match every client.
  lemma Ipv6CatchAllExactly(cidr: string)
    ensures CatchAllFamily(cidr) == Some(IPv6) <==> CoversFamily(cidr, IPv6)
  {
    if CatchAllFamily(cidr) == Some(IPv6) {
      forall client | IsClient(IPv6, client) ensures Contains(client, cidr) { CatchAllMatches(cidr, IPv6, client); }
    }
    if CoversFamily(cidr, IPv6) { CoveringIpv6RuleIsFound(cidr); }
  }

  lemma CoveringIpv4RuleIsFound(cidr: string)
    requires CoversFamily(cidr, IPv4) && ':' !in Shown(cidr)
    ensures CatchAllFamily(cidr) == Some(IPv4)
  {
    if '/' !in Shown(cidr) { var missed := SingleAddressMisses(cidr); assert false; }
    Ipv4RoundTrip(0);
    assert IsClient(IPv4, V4(IntToIpv4(0)));
    Ipv4RuleIsPrefixEquality(cidr, IntToIpv4(0));
    if Subnet(cidr).value.1 > 0 { var missed := NarrowIpv4RuleMisses(cidr); assert false; }
    Ipv4CatchAllAsks(cidr);
  }

  // For IPv4 it finds those without a colon: the matcher reads only what stands
  // before a second slash and the digits that start the prefix.
  lemma Ipv4CatchAllExactly(cidr: string)
    ensures CatchAllFamily(cidr) == Some(IPv4) <==> CoversFamily(cidr, IPv4) && ':' !in Shown(cidr)
  {
    if CatchAllFamily(cidr) == Some(IPv4) {
      Ipv4CatchAllAsks(cidr);
      forall client | IsClient(IPv4, client) ensures Contains(client, cidr) { CatchAllMatches(cidr, IPv4, client); }
    }
    if CoversFamily(cidr, IPv4) && ':' !in Shown(cidr) { CoveringIpv4RuleIsFound(cidr); }
  }

  lemma ZeroSubnet(subnet: string)
    requires subnet == IntToIpv4(0)
    ensures Ipv4Number(subnet) == Some(0) && AllPlain(subnet) && Lacks(subnet, '/') && subnet != ""
  {
    Ipv4RoundTrip(0);
    EmptyTextsAreRefused();
    ByteText(0);
    FirstOctet(subnet);
  }

  lemma FirstOctet(subnet: string)
    requires subnet == IntToIpv4(0)
    ensures Lacks(subnet, '/')
  {
    ShrZero(24);
    ShrZero(16);
    ShrZero(8);
    assert And(0, 255) == 0;
    DigitsArePlain(Decimal(0));
    JoinLacks([Decimal(0), Decimal(0), Decimal(0), Decimal(0)], ".", '/');
  }

  lemma ColonAfterZeroIsZero(prefix: string)
    requires prefix == "0:"
    ensures ParseInt(prefix) == Some(0) && AllPlain(prefix) && Lacks(prefix, '/')
  {
    assert IsDigit('0') && AllDigits("0");
    DigitsLengthIs(prefix, "0", ":");
    assert prefix[..1] == "0" && DigitsValue("0") == 10 * DigitsValue("0"[..0]);
  }

  lemma SplitsAtSlash(cidr: string, subnet: string, prefix: string)
    requires cidr == subnet + "/" + prefix && Lacks(subnet, '/') && Lacks(prefix, '/')
    ensures Split(cidr, '/') == [subnet, prefix]
  {
    var parts: seq<string> := [subnet, prefix];
    assert parts[1..] == [prefix] && Join(parts, "/") == cidr;
    SplitOfJoin(parts, '/');
  }

  lemma SlashedIsPlainText(cidr: string, subnet: string, prefix: string)
    requires cidr == subnet + "/" + prefix && AllPlain(subnet) && AllPlain(prefix)
    ensures AllPlain(cidr) && cidr[|subnet|] == '/' && cidr[|subnet| + 1..] == prefix
  {
  }

  lemma ColonRuleText(cidr: string, subnet: string, prefix: string)
    requires AllPlain(subnet) && AllPlain(prefix) && Lacks(subnet, '/') && Lacks(prefix, '/')
    requires cidr == subnet + "/" + prefix && prefix != "" && prefix[|prefix| - 1] == ':'
    ensures Shown(cidr) == cidr && Trim(cidr) == cidr && '/' in cidr && ':' in cidr
    ensures Split(cidr, '/') == [subnet, prefix]
  {
    SplitsAtSlash(cidr, subnet, prefix);
    SlashedIsPlainText(cidr, subnet, prefix);
    PlainIsShown(cidr);
    assert cidr[|subnet|] == '/' && cidr[|subnet| + |prefix|] == ':';
  }

  lemma ZeroSubnetCovers(cidr: string)
    requires '/' in Shown(cidr) && Subnet(cidr) == Some((0, 0))
    ensures CoversFamily(cidr, IPv4)
  {
    forall client | IsClient(IPv4, client) ensures Contains(client, cidr) {
      Ipv4RuleIsPrefixEquality(cidr, client.text);
    }
  }

  lemma ColonRuleSubnet(cidr: string, subnet: string, prefix: string)
    requires Shown(cidr) == cidr && '/' in cidr && Split(cidr, '/') == [subnet, prefix]
    requires Ipv4Number(subnet) == Some(0) && ParseInt(prefix) == Some(0)
    ensures Subnet(cidr) == Some((0, 0))
  {
  }

  // Such a rule exists: 0.0.0.0/0 with a colon behind it matches every IPv4 client
  // and is no catch-all for the check.
  lemma ColonRuleIsMissed(cidr: string, subnet: string, prefix: string)
    requires subnet == IntToIpv4(0) && prefix == "0:" && cidr == subnet + "/" + prefix
    ensures CoversFamily(cidr, IPv4) && CatchAllFamily(cidr) != Some(IPv4)
  {
    ZeroSubnet(subnet);
    ColonAfterZeroIsZero(prefix);
    ColonRuleText(cidr, subnet, prefix);
    ColonRuleSubnet(cidr, subnet, prefix);
    ZeroSubnetCovers(cidr);
    Ipv4CatchAllExactly(cidr);
  }

  // --------------------------------------------------------------------
  // First match and the family gap
  // --------------------------------------------------------------------

  predicate NoneContains(client: Client, rules: seq<Rule>) {
    forall rule | rule in rules :: !Contains(client, rule.cidr)
  }

  lemma OneRuleBefore(client: Client, rules: seq<Rule>, k: nat)
    requires rules != [] && k <= |rules[1..]| && !Contains(client, rules[0].cidr)
    requires NoneContains(client, rules[1..][..k])
    ensures NoneContains(client, rules[..k + 1])
  {
    assert rules[..k + 1] == [rules[0]] + rules[1..][..k];
  }

  // The matched rule is the first that contains the client.
  lemma {:induction false} FirstMatchIsFirst(client: Client, rules: seq<Rule>) returns (k: nat)
    ensures k <= |rules| && NoneContains(client, rules[..k])
    ensures k < |rules| ==> Contains(client, rules[k].cidr)
    ensures FirstMatch(client, rules) == if k < |rules| then Some(rules[k]) else None
  {
    if rules == [] || Contains(client, rules[0].cidr) {
      k := 0;
    } else {
      var later := FirstMatchIsFirst(client, rules[1..]);
      OneRuleBefore(client, rules, later);
      k := later + 1;
    }
  }

  lemma {:induction false} CatchAllDecides(rules: seq<Rule>, family: Family, client: Client)
    requires FirstCatchAll(rules, family).Some? && IsClient(family, client)
    ensures FirstMatch(client, rules).Some?
  {
    if CatchAllFamily(rules[0].cidr) == Some(family) {
      CatchAllMatches(rules[0].cidr, family, client);
    } else if !Contains(client, rules[0].cidr) {
      CatchAllDecides(rules[1..], family, client);
    }
  }

  // With a DENY catch-all first in its family and no gap reported, every client
  // with an address of either family matches some rule.
  lemma NoGapDecidesEveryClient(rules: seq<Rule>, family: Family, ip: string)
    requires GapIn(rules).None?
    requires FirstCatchAll(rules, family).Some? && FirstCatchAll(rules, family).value.action == DENY
    requires IsClient(IPv4, Classify(ip)) || IsClient(IPv6, Classify(ip))
    ensures FirstMatch(Classify(ip), rules).Some?
  {
    assert FirstCatchAll(rules, Other(family)).Some?;
    var own := if IsClient(IPv4, Classify(ip)) then IPv4 else IPv6;
    assert own == family || own == Other(family);
    CatchAllDecides(rules, own, Classify(ip));
  }

  // What the catch-all check can see: for IPv4, a rule without a colon.
  ghost predicate PlainlyCovers(cidr: string, family: Family) {
    CoversFamily(cidr, family) && (family == IPv4 ==> ':' !in Shown(cidr))
  }

  lemma CatchAllExactly(cidr: string, family: Family)
    ensures CatchAllFamily(cidr) == Some(family) <==> PlainlyCovers(cidr, family)
  {
    Ipv4CatchAllExactly(cidr);
    Ipv6CatchAllExactly(cidr);
  }

  lemma {:induction false} NoCatchAllCovers(rules: seq<Rule>, family: Family)
    ensures FirstCatchAll(rules, family).None? <==> forall k | 0 <= k < |rules| :: !PlainlyCovers(rules[k].cidr, family)
  {
    if rules != [] {
      CatchAllExactly(rules[0].cidr, family);
      assert forall k | 0 < k < |rules| :: rules[k] == rules[1..][k - 1];
      assert forall k | 0 <= k < |rules[1..]| :: rules[1..][k] == rules[k + 1];
      NoCatchAllCovers(rules[1..], family);
    }
  }

  // A reported gap: every client of the covered family is decided, and no rule
  // covers the other family.
  lemma GapLeavesTheOtherFamilyOpen(rules: seq<Rule>, client: Client)
    requires GapIn(rules).Some?
    ensures IsClient(GapIn(rules).value.family, client) ==> FirstMatch(client, rules).Some?
    ensures forall k | 0 <= k < |rules| :: !PlainlyCovers(rules[k].cidr, GapIn(rules).value.uncoveredFamily)
  {
    var gap := GapIn(rules).value;
    if IsClient(gap.family, client) { CatchAllDecides(rules, gap.family, client); }
    NoCatchAllCovers(rules, gap.uncoveredFamily);
  }
}
