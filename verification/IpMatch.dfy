// The IP rule matcher of packages/shared/src/ip-match.ts. Letters are lower-cased
// as ASCII; no other letter can be part of an address.
module IpMatch {
  import opened Basics
  import opened Text
  import opened Numerals
  import opened Bits
  import opened Ipv6Text
  import opened Ipv6

  // --------------------------------------------------------------------
  // Text
  // --------------------------------------------------------------------

  function Lower(c: char): char { if 'A' <= c <= 'Z' then c + ('a' - 'A') else c }

  function LowerAll(s: string): (l: string)
    ensures |l| == |s| && forall k | 0 <= k < |s| :: l[k] == Lower(s[k])
  {
    seq(|s|, k requires 0 <= k < |s| => Lower(s[k]))
  }

  // ip.trim().toLowerCase()
  function Shown(s: string): string { LowerAll(Trim(s)) }

  // --------------------------------------------------------------------
  // IPv4
  // --------------------------------------------------------------------

  // /^\d{1,3}$/
  predicate IsShortNumber(s: string) { 1 <= |s| <= 3 && AllDigits(s) }

  predicate AreOctets(parts: seq<string>) {
    forall k | 0 <= k < |parts| :: IsShortNumber(parts[k]) && DigitsValue(parts[k]) <= 255
  }

  function OctetsValue(parts: seq<string>): nat
    requires AreOctets(parts)
  {
    if parts == [] then 0
    else
      var last := |parts| - 1;
      assert IsShortNumber(parts[last]);
      OctetsValue(parts[..last]) * 256 + DigitsValue(parts[last])
  }

  function Ipv4Number(ip: string): Option<nat> {
    var parts := Split(ip, '.');
    if |parts| == 4 && AreOctets(parts) then Some(OctetsValue(parts)) else None
  }

  function IntToIpv4(n: nat): string {
    Join([Decimal(Shr(n, 24)), Decimal(And(Shr(n, 16), 255)), Decimal(And(Shr(n, 8), 255)), Decimal(And(n, 255))], ".")
  }

  // --------------------------------------------------------------------
  // Clients
  // --------------------------------------------------------------------

  datatype Client = V4(text: string) | V6(value: nat)

  // /^\d{1,3}(?:\.\d{1,3}){3}$/
  predicate IsDottedText(s: string) {
    var parts := Split(s, '.');
    |parts| == 4 && forall k | 0 <= k < 4 :: IsShortNumber(parts[k])
  }

  const MAPPED: string := "::ffff:"

  predicate IsMapped(value: nat) { Shr(value, 32) == 0xffff }

  function Classify(ip: string): Client {
    var trimmed := Shown(ip);
    if MAPPED <= trimmed && IsDottedText(trimmed[7..]) then V4(trimmed[7..])
    else
      var value := if ':' in trimmed then ToBigInt(trimmed) else None;
      if value.None? then V4(trimmed)
      else if IsMapped(value.value) then V4(IntToIpv4(And(value.value, 0xffff_ffff)))
      else V6(value.value)
  }

  function NormalizeIpForMatch(ip: string): string {
    match Classify(ip)
    case V4(text) => text
    case V6(value) => TextOf(value)
  }

  function IpLimitKey(ip: string): string {
    match Classify(ip)
    case V4(text) => text
    case V6(value) => TextOf(And(value, PrefixMask(64, 128))) + "/64"
  }

  // --------------------------------------------------------------------
  // Rules
  // --------------------------------------------------------------------

  // parseInt(s, 10); None is NaN.
  function ParseInt(s: string): Option<int> {
    var t := TrimStart(s);
    var negative := t != "" && t[0] == '-';
    var digits := if t != "" && (t[0] == '-' || t[0] == '+') then t[1..] else t;
    var n := DigitsLength(digits);
    var magnitude: int := DigitsValue(digits[..n]);
    if n == 0 then None else Some(if negative then -magnitude else magnitude)
  }

  // The comparison under the mask that the prefix length makes; no shift by 32.
  predicate SameUnderMask(ip: nat, subnet: nat, prefix: nat)
    requires prefix <= 32
  {
    prefix == 0 || And(Xor(ip, subnet), ShiftLeft32(TWO_32 - 1, 32 - prefix)) == 0
  }

  predicate CidrContains(cidr: string, ip: string) {
    var pattern := Shown(cidr);
    if '/' !in pattern then ip == pattern
    else
      SlashSplits(pattern);
      var subnet, prefixStr := Split(pattern, '/')[0], Split(pattern, '/')[1];
      if subnet == "" || prefixStr == "" then false
      else
        var prefix := ParseInt(prefixStr);
        if prefix.None? || prefix.value < 0 || prefix.value > 32 then false
        else
          var ipNum, subnetNum := Ipv4Number(ip), Ipv4Number(subnet);
          if ipNum.None? || subnetNum.None? then false
          else SameUnderMask(ipNum.value, subnetNum.value, prefix.value)
  }

  lemma SlashSplits(pattern: string)
    requires '/' in pattern
    ensures |Split(pattern, '/')| >= 2
  {
    FirstChar(pattern, '/');
  }

  datatype Rejection = NotIpv6 | ZoneId | BracketsOrPort | BadPrefix | Ipv4Mapped

  datatype Parsed =
    | Accepted(network: nat, mask: nat, prefix: nat, canonical: string)
    | Rejected(reason: Rejection)

  // /^\[([^\]]+)\](?::\d{1,5})?$/, and what stands between the brackets.
  function Bracketed(address: string): Option<string> {
    if address == "" || address[0] != '[' then None
    else
      var close := IndexOf(address, "]", 0);
      if close < 2 then None
      else
        var port := address[close + 1..];
        if port == "" || (2 <= |port| <= 6 && port[0] == ':' && AllDigits(port[1..])) then Some(address[1..close])
        else None
  }

  function WhyNotIpv6(address: string): Rejection {
    var zone := IndexOf(address, "%", 0);
    if zone > 0 && ToBigInt(address[..zone]).Some? then ZoneId
    else if Bracketed(address).Some? && ToBigInt(Bracketed(address).value).Some? then BracketsOrPort
    else NotIpv6
  }

  // The text before a slash at `slash`, and what follows it; all of the text, and
  // nothing, when there is none.
  function BeforeSlash(text: string, slash: int): string
    requires slash == -1 || 0 <= slash < |text|
  {
    if slash == -1 then text else text[..slash]
  }

  function AfterSlash(text: string, slash: int): Option<string>
    requires slash == -1 || 0 <= slash < |text|
  {
    if slash == -1 then None else Some(text[slash + 1..])
  }

  function AddressPart(text: string): string { BeforeSlash(text, IndexOf(text, "/", 0)) }

  function PrefixPart(text: string): Option<string> { AfterSlash(text, IndexOf(text, "/", 0)) }

  predicate IsPrefixText(s: string) { IsShortNumber(s) && DigitsValue(s) <= 128 }

  // A rule from its address, the number of that, and what follows the slash.
  function ParsedRule(address: string, value: Option<nat>, prefixText: Option<string>): Parsed {
    if value.None? then Rejected(WhyNotIpv6(address))
    else if prefixText.Some? && !IsPrefixText(prefixText.value) then Rejected(BadPrefix)
    else if IsMapped(value.value) then Rejected(Ipv4Mapped)
    else
      var prefix := if prefixText.None? then 128 else DigitsValue(prefixText.value);
      var mask := PrefixMask(prefix, 128);
      var canonical := TextOf(value.value);
      Accepted(And(value.value, mask), mask, prefix,
               if prefixText.None? then canonical else canonical + "/" + Decimal(prefix))
  }

  function ParseIpv6Cidr(input: string): Parsed {
    var text := Trim(input);
    ParsedRule(AddressPart(text), ToBigInt(AddressPart(text)), PrefixPart(text))
  }

  predicate Ipv6CidrContains(cidr: string, value: nat) {
    var parsed := ParseIpv6Cidr(cidr);
    parsed.Accepted? && And(value, parsed.mask) == parsed.network
  }

  datatype Action = ALLOW | DENY

  datatype Rule = Rule(cidr: string, action: Action, priority: int)

  predicate Contains(client: Client, cidr: string) {
    match client
    case V6(value) => Ipv6CidrContains(cidr, value)
    case V4(text) => CidrContains(cidr, text)
  }

  function FirstMatch(client: Client, rules: seq<Rule>): Option<Rule> {
    if rules == [] then None
    else if Contains(client, rules[0].cidr) then Some(rules[0])
    else FirstMatch(client, rules[1..])
  }

  // --------------------------------------------------------------------
  // Catch-alls
  // --------------------------------------------------------------------

  datatype Family = IPv4 | IPv6

  function CatchAllFamily(cidr: string): Option<Family> {
    var pattern := Shown(cidr);
    if '/' !in pattern then None
    else if ':' in pattern then
      var parsed := ParseIpv6Cidr(pattern);
      if parsed.Accepted? && parsed.prefix == 0 then Some(IPv6) else None
    else
      SlashSplits(pattern);
      var subnet, prefixStr := Split(pattern, '/')[0], Split(pattern, '/')[1];
      if subnet == "" || prefixStr == "" || Ipv4Number(subnet).None? then None
      else if ParseInt(prefixStr) == Some(0) then Some(IPv4) else None
  }

  function FirstCatchAll(rules: seq<Rule>, family: Family): Option<Rule> {
    if rules == [] then None
    else if CatchAllFamily(rules[0].cidr) == Some(family) then Some(rules[0])
    else FirstCatchAll(rules[1..], family)
  }

  function Other(family: Family): Family { if family == IPv4 then IPv6 else IPv4 }

  predicate OnlyDenied(rules: seq<Rule>, family: Family) {
    && FirstCatchAll(rules, family).Some? && FirstCatchAll(rules, family).value.action == DENY
    && FirstCatchAll(rules, Other(family)).None?
  }

  datatype Gap = Gap(family: Family, uncoveredFamily: Family, cidr: string)

  function GapIn(rules: seq<Rule>): Option<Gap> {
    if OnlyDenied(rules, IPv4) then Some(Gap(IPv4, IPv6, FirstCatchAll(rules, IPv4).value.cidr))
    else if OnlyDenied(rules, IPv6) then Some(Gap(IPv6, IPv4, FirstCatchAll(rules, IPv6).value.cidr))
    else None
  }

  // --------------------------------------------------------------------
  // The source's loops
  // --------------------------------------------------------------------

  method Ipv4ToNumber(ip: string) returns (r: Option<nat>)
    ensures r == Ipv4Number(ip)
  {
    var parts := Split(ip, '.');
    if |parts| != 4 { return None; }
    var result := 0;
    for i := 0 to 4
      invariant AreOctets(parts[..i]) && result == OctetsValue(parts[..i])
    {
      var part := parts[i];
      if !IsShortNumber(part) { return None; }
      var n := DigitsValue(part);
      if n < 0 || n > 255 { return None; }
      OneMoreOctet(parts, i);
      result := (result * 256 + n) % TWO_32;
    }
    assert parts[..4] == parts;
    OctetsBound(parts);
    return Some(result % TWO_32);
  }

  lemma {:induction false} OctetsBound(parts: seq<string>)
    requires AreOctets(parts) && |parts| <= 4
    ensures |parts| <= 3 ==> OctetsValue(parts) < 0x100_0000
    ensures |parts| <= 2 ==> OctetsValue(parts) < 0x1_0000
    ensures |parts| <= 1 ==> OctetsValue(parts) < 0x100
    ensures |parts| == 0 ==> OctetsValue(parts) == 0
    ensures OctetsValue(parts) < TWO_32
  {
    if parts != [] { OctetsBound(parts[..|parts| - 1]); }
  }

  lemma OneMoreOctet(parts: seq<string>, i: nat)
    requires i < |parts| == 4 && AreOctets(parts[..i]) && IsShortNumber(parts[i]) && DigitsValue(parts[i]) <= 255
    ensures AreOctets(parts[..i + 1])
         && OctetsValue(parts[..i + 1]) == OctetsValue(parts[..i]) * 256 + DigitsValue(parts[i])
    ensures OctetsValue(parts[..i + 1]) < TWO_32
  {
    assert parts[..i + 1][..i] == parts[..i];
    OctetsBound(parts[..i + 1]);
  }

  method MatchIpRule(ip: string, rules: seq<Rule>) returns (r: Option<Rule>)
    ensures r == FirstMatch(Classify(ip), rules)
  {
    var client := Classify(ip);
    assert rules[0..] == rules;
    for i := 0 to |rules|
      invariant FirstMatch(client, rules) == FirstMatch(client, rules[i..])
    {
      assert rules[i..][1..] == rules[i + 1..];
      if Contains(client, rules[i].cidr) { return Some(rules[i]); }
    }
    return None;
  }

  method FindCatchAllFamilyGap(rules: seq<Rule>) returns (gap: Option<Gap>)
    ensures gap == GapIn(rules)
  {
    var first: map<Family, Rule> := map[];
    assert rules[..0] == [];
    for i := 0 to |rules|
      invariant forall f :: FirstCatchAll(rules[..i], f) == if f in first then Some(first[f]) else None
    {
      var family := CatchAllFamily(rules[i].cidr);
      forall f
        ensures FirstCatchAll(rules[..i + 1], f)
             == if FirstCatchAll(rules[..i], f).Some? then FirstCatchAll(rules[..i], f)
                else if family == Some(f) then Some(rules[i]) else None
      {
        assert rules[..i + 1] == rules[..i] + [rules[i]];
        FirstCatchAllAppend(rules[..i], rules[i], f);
      }
      if family.Some? && family.value !in first { first := first[family.value := rules[i]]; }
    }
    assert rules[..|rules|] == rules;
    var pairs := [(IPv4, IPv6), (IPv6, IPv4)];
    for p := 0 to 2
      invariant p > 0 ==> !OnlyDenied(rules, IPv4)
      invariant p > 1 ==> !OnlyDenied(rules, IPv6)
    {
      var (family, uncovered) := pairs[p];
      if family in first && first[family].action == DENY && uncovered !in first {
        return Some(Gap(family, uncovered, first[family].cidr));
      }
    }
    return None;
  }

  lemma {:induction false} FirstCatchAllAppend(rules: seq<Rule>, rule: Rule, family: Family)
    ensures FirstCatchAll(rules + [rule], family)
         == if FirstCatchAll(rules, family).Some? then FirstCatchAll(rules, family)
            else if CatchAllFamily(rule.cidr) == Some(family) then Some(rule) else None
  {
    if rules == [] {
      assert [] + [rule] == [rule] && [rule][1..] == [];
    } else {
      assert (rules + [rule])[1..] == rules[1..] + [rule];
      FirstCatchAllAppend(rules[1..], rule, family);
    }
  }
}
