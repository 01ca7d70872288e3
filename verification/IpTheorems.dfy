// What the IP matcher guarantees: prefix equality, stable normalization, one limit
// key per /64, and no undecided client behind a DENY catch-all.
module IpTheorems {
  import opened Basics
  import opened Text
  import opened Numerals
  import opened Bits
  import opened Ipv6Text
  import opened Ipv6
  import opened IpMatch

  // --------------------------------------------------------------------
  // Texts that trimming and lower-casing leave alone
  // --------------------------------------------------------------------

  predicate IsPlain(c: char) { IsDigit(c) || 'a' <= c <= 'f' || c == ':' || c == '.' || c == '/' }

  predicate AllPlain(s: string) { forall k | 0 <= k < |s| :: IsPlain(s[k]) }

  lemma {:induction false} TrimStartOf(s: string)
    ensures TrimStart(s) == "" || !IsSpace(TrimStart(s)[0])
    ensures s == "" || !IsSpace(s[0]) ==> TrimStart(s) == s
  {
    if s != "" && IsSpace(s[0]) { TrimStartOf(s[1..]); }
  }

  lemma {:induction false} TrimEndOf(s: string)
    ensures TrimEnd(s) == "" || !IsSpace(TrimEnd(s)[|TrimEnd(s)| - 1])
    ensures s == "" || !IsSpace(s[|s| - 1]) ==> TrimEnd(s) == s
    ensures TrimEnd(s) <= s
  {
    if s != "" && IsSpace(s[|s| - 1]) { TrimEndOf(s[..|s| - 1]); }
  }

  predicate IsTrimmed(s: string) { s == "" || (!IsSpace(s[0]) && !IsSpace(s[|s| - 1])) }

  lemma TrimmedStays(s: string)
    requires IsTrimmed(s)
    ensures Trim(s) == s
  {
    TrimStartOf(s);
    TrimEndOf(s);
  }

  lemma TrimTrims(s: string)
    ensures IsTrimmed(Trim(s)) && Trim(Trim(s)) == Trim(s)
  {
    TrimStartOf(s);
    TrimEndOf(TrimStart(s));
    if Trim(s) != "" { assert Trim(s)[0] == TrimStart(s)[0]; }
    TrimmedStays(Trim(s));
  }

  lemma LowerKeepsSpaces(c: char)
    ensures IsSpace(Lower(c)) == IsSpace(c) && Lower(Lower(c)) == Lower(c)
  {
  }

  lemma LowerIsTrimmed(s: string)
    requires IsTrimmed(s)
    ensures IsTrimmed(LowerAll(s)) && LowerAll(LowerAll(s)) == LowerAll(s)
  {
    if s != "" {
      LowerKeepsSpaces(s[0]);
      LowerKeepsSpaces(s[|s| - 1]);
    }
  }

  lemma ShownStays(s: string)
    ensures Shown(Shown(s)) == Shown(s) && Trim(Shown(s)) == Shown(s)
  {
    TrimTrims(s);
    LowerIsTrimmed(Trim(s));
    TrimmedStays(Shown(s));
  }

  lemma PlainIsShown(s: string)
    requires AllPlain(s)
    ensures Shown(s) == s && Trim(s) == s
  {
    TrimmedStays(s);
    assert LowerAll(s) == s;
  }

  // --------------------------------------------------------------------
  // The characters of rendered addresses
  // --------------------------------------------------------------------

  lemma {:induction false} JoinIsPlain(parts: seq<string>, separator: string)
    requires AllPlain(separator) && forall k | 0 <= k < |parts| :: AllPlain(parts[k])
    ensures AllPlain(Join(parts, separator))
  {
    if |parts| > 1 { JoinIsPlain(parts[1..], separator); }
  }

  lemma {:induction false} HexIsPlain(n: nat)
    ensures AllPlain(Hex(n)) && Lacks(Hex(n), '.') && Lacks(Hex(n), '/')
  {
    if n >= 16 { HexIsPlain(n / 16); }
  }

  lemma {:induction false} JoinLacks(parts: seq<string>, separator: string, c: char)
    requires Lacks(separator, c) && forall k | 0 <= k < |parts| :: Lacks(parts[k], c)
    ensures Lacks(Join(parts, separator), c)
  {
    if |parts| > 1 { JoinLacks(parts[1..], separator, c); }
  }

  predicate IsAddressText(s: string) { AllPlain(s) && Lacks(s, '.') && Lacks(s, '/') }

  lemma GroupsText(groups: seq<nat>)
    ensures IsAddressText(Join(HexAll(groups), ":"))
  {
    forall k | 0 <= k < |groups|
      ensures AllPlain(HexAll(groups)[k]) && Lacks(HexAll(groups)[k], '.') && Lacks(HexAll(groups)[k], '/')
    {
      HexIsPlain(groups[k]);
    }
    JoinIsPlain(HexAll(groups), ":");
    JoinLacks(HexAll(groups), ":", '.');
    JoinLacks(HexAll(groups), ":", '/');
  }

  lemma SidesText(l: string, r: string)
    requires IsAddressText(l) && IsAddressText(r)
    ensures IsAddressText(l + "::" + r)
  {
  }

  lemma WrittenText(groups: seq<nat>, start: nat, n: nat)
    requires start + n <= |groups|
    ensures IsAddressText(WriteAround(groups, start, n))
  {
    var left, right := groups[..start], groups[start + n..];
    GroupsText(groups);
    GroupsText(left);
    GroupsText(right);
    SidesText(Join(HexAll(left), ":"), Join(HexAll(right), ":"));
  }

  lemma SerializedText(groups: seq<nat>)
    ensures IsAddressText(Serialize(groups))
  {
    var start := LongestRun(groups, 0);
    WrittenText(groups, start, Run(groups, start));
  }

  lemma TextOfIsPlain(value: nat)
    requires value < Pow2(128)
    ensures IsAddressText(TextOf(value)) && ':' in TextOf(value)
  {
    SerializedText(Groups(value));
    RoundTrip(value);
    AddressesLookLikeIpv6(TextOf(value));
  }

  lemma DigitsArePlain(s: string)
    requires AllDigits(s)
    ensures AllPlain(s) && Lacks(s, '.') && Lacks(s, ':') && Lacks(s, '/')
  {
  }

  lemma {:induction false} SplitIsPlain(s: string)
    requires forall k | 0 <= k < |Split(s, '.')| :: AllDigits(Split(s, '.')[k])
    ensures AllPlain(s) && Lacks(s, ':')
    decreases |s|
  {
    var parts := Split(s, '.');
    var k := IndexOf(s, ".", 0);
    FirstChar(s, '.');
    if k != -1 {
      assert parts[0] == s[..k] && parts[1..] == Split(s[k + 1..], '.');
      assert forall i | 0 <= i < |parts[1..]| :: parts[1..][i] == parts[i + 1];
      SplitIsPlain(s[k + 1..]);
      forall i | 0 <= i < |s| ensures IsPlain(s[i]) && s[i] != ':' {
        if i < k { assert s[i] == s[..k][i]; }
        if i > k { assert s[i] == s[k + 1..][i - k - 1]; }
      }
    } else {
      assert parts[0] == s;
    }
  }

  // A text of digits and dots is its own client text.
  lemma DottedIsItsOwnClient(text: string)
    requires AllPlain(text) && Lacks(text, ':')
    ensures Classify(text) == V4(text)
  {
    PlainIsShown(text);
    assert MAPPED[0] == ':' && (text != "" ==> text[0] != ':');
  }

  // --------------------------------------------------------------------
  // IPv4 text and numbers
  // --------------------------------------------------------------------

  lemma EightBits()
    ensures Pow2(8) == 256 && Pow2(16) == 0x1_0000 && Pow2(24) == 0x100_0000
  {
    assert Pow2(8) == 256;
    assert Pow2(16) == 256 * Pow2(8);
  }

  lemma ByteText(n: nat)
    requires n < 256
    ensures IsByte(Decimal(n)) && DigitsValue(Decimal(n)) == n && IsOctet(Decimal(n)) && Lacks(Decimal(n), '.')
  {
    DecimalIsRead(n);
    DecimalLength(n, 3);
    assert Pow10(3) == 1000;
    DecimalStart(n);
  }

  lemma {:induction false} DecimalStart(n: nat)
    ensures |Decimal(n)| > 1 ==> Decimal(n)[0] != '0'
    ensures n > 0 ==> Decimal(n)[0] != '0'
  {
    if n >= 10 { DecimalStart(n / 10); }
  }

  // The four bytes of a 32-bit number.
  lemma BytesOf(n: nat)
    requires n < TWO_32
    ensures var a, b, c, d := Shr(n, 24), And(Shr(n, 16), 255), And(Shr(n, 8), 255), And(n, 255);
            a < 256 && b < 256 && c < 256 && d < 256 && ((a * 256 + b) * 256 + c) * 256 + d == n
  {
    EightBits();
    TwoToThe32();
    ShrBound(n, 8, 24);
    AndLow(n, 8);
    AndLow(Shr(n, 8), 8);
    AndLow(Shr(n, 16), 8);
    ShrAdd(n, 8, 8);
    ShrAdd(n, 16, 8);
    Times256(Shr(n, 24));
    Times256(Shr(n, 16));
    Times256(Shr(n, 8));
  }

  lemma Times256(x: nat)
    ensures Shl(x, 8) == x * 256
  {
    assert Shl(x, 1) == x * 2;
    assert Shl(x, 2) == x * 4;
    assert Shl(x, 3) == x * 8;
    assert Shl(x, 4) == x * 16;
    assert Shl(x, 5) == x * 32;
    assert Shl(x, 6) == x * 64;
    assert Shl(x, 7) == x * 128;
  }

  lemma OctetsSplit(parts: seq<string>, text: string)
    requires |parts| == 4 && AreOctets(parts) && (forall k | 0 <= k < 4 :: Lacks(parts[k], '.'))
          && text == Join(parts, ".")
    ensures Split(text, '.') == parts && AllPlain(text) && Lacks(text, ':')
  {
    SplitOfJoin(parts, '.');
    forall k | 0 <= k < |Split(text, '.')| ensures AllDigits(Split(text, '.')[k]) { assert IsShortNumber(parts[k]); }
    SplitIsPlain(text);
  }

  lemma OctetsAppend(front: seq<string>, last: string)
    requires AreOctets(front) && IsShortNumber(last) && DigitsValue(last) <= 255
    ensures AreOctets(front + [last]) && OctetsValue(front + [last]) == OctetsValue(front) * 256 + DigitsValue(last)
  {
    assert (front + [last])[..|front|] == front;
  }

  predicate IsOctet(s: string) { IsShortNumber(s) && DigitsValue(s) <= 255 }

  lemma FourOctets(a: string, b: string, c: string, d: string)
    requires IsOctet(a) && IsOctet(b) && IsOctet(c) && IsOctet(d)
    ensures AreOctets([a, b, c, d])
    ensures OctetsValue([a, b, c, d])
         == ((DigitsValue(a) * 256 + DigitsValue(b)) * 256 + DigitsValue(c)) * 256 + DigitsValue(d)
  {
    OctetsAppend([], a);
    OctetsAppend([] + [a], b);
    OctetsAppend([] + [a] + [b], c);
    OctetsAppend([] + [a] + [b] + [c], d);
    assert [] + [a] + [b] + [c] + [d] == [a, b, c, d];
  }

  predicate IsByteText(s: string, n: nat) { IsOctet(s) && DigitsValue(s) == n && Lacks(s, '.') }

  lemma ByteTextsAreRead(p: string, q: string, r: string, s: string, a: nat, b: nat, c: nat, d: nat, text: string)
    requires IsByteText(p, a) && IsByteText(q, b) && IsByteText(r, c) && IsByteText(s, d)
    requires text == Join([p, q, r, s], ".")
    ensures Ipv4Number(text) == Some(((a * 256 + b) * 256 + c) * 256 + d)
    ensures AllPlain(text) && Lacks(text, ':')
  {
    FourOctets(p, q, r, s);
    OctetsSplit([p, q, r, s], text);
  }

  lemma BytesAreRead(a: nat, b: nat, c: nat, d: nat, text: string)
    requires a < 256 && b < 256 && c < 256 && d < 256
          && text == Join([Decimal(a), Decimal(b), Decimal(c), Decimal(d)], ".")
    ensures Ipv4Number(text) == Some(((a * 256 + b) * 256 + c) * 256 + d)
    ensures AllPlain(text) && Lacks(text, ':')
  {
    ByteText(a);
    ByteText(b);
    ByteText(c);
    ByteText(d);
    ByteTextsAreRead(Decimal(a), Decimal(b), Decimal(c), Decimal(d), a, b, c, d, text);
  }

  // Ipv4ToNumber(intToIpv4(n)) == n, and the text is that client's own.
  lemma Ipv4RoundTrip(n: nat)
    requires n < TWO_32
    ensures Ipv4Number(IntToIpv4(n)) == Some(n)
    ensures AllPlain(IntToIpv4(n)) && Lacks(IntToIpv4(n), ':')
  {
    BytesOf(n);
    BytesAreRead(Shr(n, 24), And(Shr(n, 16), 255), And(Shr(n, 8), 255), And(n, 255), IntToIpv4(n));
  }

  lemma Ipv4TextIsItsOwnClient(n: nat)
    requires n < TWO_32
    ensures Classify(IntToIpv4(n)) == V4(IntToIpv4(n))
  {
    Ipv4RoundTrip(n);
    DottedIsItsOwnClient(IntToIpv4(n));
  }

  lemma Ipv4NumberBound(ip: string)
    ensures Ipv4Number(ip).Some? ==> Ipv4Number(ip).value < Pow2(32)
  {
    if Ipv4Number(ip).Some? { OctetsBound(Split(ip, '.')); }
    TwoToThe32();
  }

  // --------------------------------------------------------------------
  // Normalization
  // --------------------------------------------------------------------

  lemma LowBitsBound(value: nat)
    ensures And(value, 0xffff_ffff) < TWO_32
  {
    TwoToThe32();
    AndLow(value, 32);
  }

  lemma ClassifiedValue(ip: string)
    ensures Classify(ip).V6? ==> Classify(ip).value < Pow2(128) && !IsMapped(Classify(ip).value)
  {
    ToBigIntBound(Shown(ip));
  }

  lemma NoDotNoDottedText(s: string)
    requires Lacks(s, '.')
    ensures !IsDottedText(s)
  {
    FirstChar(s, '.');
  }

  lemma NoDotNoShortcut(text: string)
    requires Lacks(text, '.')
    ensures !(MAPPED <= text && IsDottedText(text[7..]))
  {
    if MAPPED <= text { NoDotNoDottedText(text[7..]); }
  }

  lemma ClassifiedByValue(ip: string, text: string, value: nat)
    requires text == Shown(ip) && !(MAPPED <= text && IsDottedText(text[7..]))
    requires ':' in text && ToBigInt(text) == Some(value) && !IsMapped(value)
    ensures Classify(ip) == V6(value)
  {
  }

  lemma ValueIsItsOwnClient(value: nat)
    requires value < Pow2(128) && !IsMapped(value)
    ensures Classify(TextOf(value)) == V6(value)
  {
    var text := TextOf(value);
    TextOfIsPlain(value);
    PlainIsShown(text);
    RoundTrip(value);
    NoDotNoShortcut(text);
    ClassifiedByValue(text, text, value);
  }

  lemma DottedTextIsItsOwnClient(s: string)
    requires IsDottedText(s)
    ensures Classify(s) == V4(s)
  {
    SplitIsPlain(s);
    DottedIsItsOwnClient(s);
  }

  // The normalized text is classified as the client it came from.
  lemma NormalizedIsTheSameClient(ip: string)
    ensures Classify(NormalizeIpForMatch(ip)) == Classify(ip)
  {
    var trimmed := Shown(ip);
    ShownStays(ip);
    ClassifiedValue(ip);
    if MAPPED <= trimmed && IsDottedText(trimmed[7..]) {
      DottedTextIsItsOwnClient(trimmed[7..]);
    } else if ':' in trimmed && ToBigInt(trimmed).Some? {
      var value := ToBigInt(trimmed).value;
      if IsMapped(value) {
        LowBitsBound(value);
        Ipv4TextIsItsOwnClient(And(value, 0xffff_ffff));
      } else {
        ValueIsItsOwnClient(value);
      }
    }
  }

  // Normalizing twice is normalizing once, and never changes the matched rule.
  lemma NormalizingChangesNoMatch(ip: string, rules: seq<Rule>)
    ensures NormalizeIpForMatch(NormalizeIpForMatch(ip)) == NormalizeIpForMatch(ip)
    ensures FirstMatch(Classify(NormalizeIpForMatch(ip)), rules) == FirstMatch(Classify(ip), rules)
  {
    NormalizedIsTheSameClient(ip);
  }

  // --------------------------------------------------------------------
  // Limit keys
  // --------------------------------------------------------------------

  lemma MaskedBound(value: nat, prefix: nat)
    requires prefix <= 128 && value < Pow2(128)
    ensures And(value, PrefixMask(prefix, 128)) < Pow2(128)
  {
    AndPrefixMask(value, prefix, 128);
    ShlShr(value, 128 - prefix);
  }

  lemma AppendCancels(a: string, b: string, tail: string)
    ensures a + tail == b + tail <==> a == b
  {
    if a + tail == b + tail {
      Cut(a + tail, a, tail);
      Cut(b + tail, b, tail);
    }
  }

  // Two IPv6 clients share a limit key exactly when their top 64 bits agree.
  lemma OneLimitKeyPer64(a: string, b: string)
    requires Classify(a).V6? && Classify(b).V6?
    ensures IpLimitKey(a) == IpLimitKey(b) <==> SamePrefix(Classify(a).value, Classify(b).value, 64, 128)
  {
    ClassifiedValue(a);
    ClassifiedValue(b);
    SameKeyExactly(Classify(a).value, Classify(b).value);
  }

  lemma SameKeyExactly(x: nat, y: nat)
    requires x < Pow2(128) && y < Pow2(128)
    ensures TextOf(And(x, PrefixMask(64, 128))) + "/64" == TextOf(And(y, PrefixMask(64, 128))) + "/64"
       <==> SamePrefix(x, y, 64, 128)
  {
    MaskedBound(x, 64);
    MaskedBound(y, 64);
    var p, q := And(x, PrefixMask(64, 128)), And(y, PrefixMask(64, 128));
    AppendCancels(TextOf(p), TextOf(q), "/64");
    TextIdentifiesTheValue(p, q);
    MaskedAreEqualExactly(x, y, 64, 128);
  }

  // Two clients that are not IPv6 share a key exactly when they are the same client.
  lemma OneLimitKeyPerIpv4Client(a: string, b: string)
    requires Classify(a).V4? && Classify(b).V4?
    ensures IpLimitKey(a) == IpLimitKey(b) <==> Classify(a) == Classify(b)
  {
  }

  lemma SlashBehindAddress(text: string, key: string)
    requires IsAddressText(text) && key == text + "/64"
    ensures AllPlain(key) && Lacks(key, '.') && '/' in key
  {
    assert key[|text|] == '/';
  }

  lemma MaskedTextIsPlain(value: nat, prefix: nat)
    requires prefix <= 128 && value < Pow2(128)
    ensures IsAddressText(TextOf(And(value, PrefixMask(prefix, 128))))
  {
    MaskedBound(value, prefix);
    TextOfIsPlain(And(value, PrefixMask(prefix, 128)));
  }

  lemma Ipv6KeyShape(ip: string, key: string)
    requires Classify(ip).V6? && key == IpLimitKey(ip)
    ensures AllPlain(key) && Lacks(key, '.') && '/' in key
  {
    ClassifiedValue(ip);
    var prefix := 64;
    MaskedTextIsPlain(Classify(ip).value, prefix);
    SlashBehindAddress(TextOf(And(Classify(ip).value, PrefixMask(prefix, 128))), key);
  }

  // No IPv4 address shares a key with an IPv6 client.
  lemma NoLimitKeyAcrossFamilies(a: string, b: string)
    requires Classify(a).V4? && Ipv4Number(Classify(a).text).Some? && Classify(b).V6?
    ensures IpLimitKey(a) != IpLimitKey(b)
  {
    Ipv6KeyShape(b, IpLimitKey(b));
    FirstChar(IpLimitKey(b), '.');
  }

  lemma NoAddressIsItself(text: string)
    requires AllPlain(text) && Lacks(text, '.') && '/' in text
    ensures Classify(text) == V4(text)
  {
    PlainIsShown(text);
    NoDotNoShortcut(text);
    if ParseHost(text).Some? {
      AddressesLookLikeIpv6(text);
      assert false;
    }
  }

  // Text that is no address can: a key sent as an address is its own key, and so
  // counts with every client of that network.
  lemma KeyIsItsOwnLimitKey(ip: string)
    requires Classify(ip).V6?
    ensures Classify(IpLimitKey(ip)).V4? && IpLimitKey(IpLimitKey(ip)) == IpLimitKey(ip)
  {
    Ipv6KeyShape(ip, IpLimitKey(ip));
    NoAddressIsItself(IpLimitKey(ip));
  }

  // --------------------------------------------------------------------
  // A rule matches exactly the addresses that share its prefix
  // --------------------------------------------------------------------

  // An IPv4 rule's subnet and prefix length; None for text that is not one.
  function Subnet(cidr: string): Option<(nat, nat)> {
    var pattern := Shown(cidr);
    if '/' !in pattern then None
    else
      SlashSplits(pattern);
      var subnet, prefix := Ipv4Number(Split(pattern, '/')[0]), ParseInt(Split(pattern, '/')[1]);
      if subnet.None? || prefix.None? || prefix.value < 0 || prefix.value > 32 then None
      else Some((subnet.value, prefix.value))
  }

  lemma EmptyTextsAreRefused()
    ensures Ipv4Number("").None? && ParseInt("").None?
  {
    FirstChar("", '.');
  }

  lemma NoSubnetContainsNothing(cidr: string, ip: string)
    requires '/' in Shown(cidr) && (Subnet(cidr).None? || Ipv4Number(ip).None?)
    ensures !CidrContains(cidr, ip)
  {
    EmptyTextsAreRefused();
  }

  lemma SameUnderMaskExactly(x: nat, y: nat, prefix: nat)
    requires x < Pow2(32) && y < Pow2(32) && prefix <= 32
    ensures SameUnderMask(x, y, prefix) <==> SamePrefix(x, y, prefix, 32)
  {
    MaskedDifferenceIsZeroExactly(x, y, prefix, 32);
    if prefix > 0 { ShiftedOnes(prefix); }
  }

  lemma SubnetIsCompared(cidr: string, ip: string)
    requires '/' in Shown(cidr) && Subnet(cidr).Some? && Ipv4Number(ip).Some?
    ensures CidrContains(cidr, ip)
       <==> SameUnderMask(Ipv4Number(ip).value, Subnet(cidr).value.0, Subnet(cidr).value.1)
  {
    EmptyTextsAreRefused();
  }

  lemma SubnetContainsExactly(cidr: string, ip: string)
    requires '/' in Shown(cidr) && Subnet(cidr).Some? && Ipv4Number(ip).Some?
    ensures CidrContains(cidr, ip)
       <==> SamePrefix(Ipv4Number(ip).value, Subnet(cidr).value.0, Subnet(cidr).value.1, 32)
  {
    SubnetIsCompared(cidr, ip);
    Ipv4NumberBound(ip);
    Ipv4NumberBound(Split(Shown(cidr), '/')[0]);
    SameUnderMaskExactly(Ipv4Number(ip).value, Subnet(cidr).value.0, Subnet(cidr).value.1);
  }

  lemma Ipv4RuleIsPrefixEquality(cidr: string, ip: string)
    requires '/' in Shown(cidr)
    ensures CidrContains(cidr, ip)
       <==> && Subnet(cidr).Some? && Ipv4Number(ip).Some?
            && SamePrefix(Ipv4Number(ip).value, Subnet(cidr).value.0, Subnet(cidr).value.1, 32)
  {
    if Subnet(cidr).Some? && Ipv4Number(ip).Some? {
      SubnetContainsExactly(cidr, ip);
    } else {
      NoSubnetContainsNothing(cidr, ip);
    }
  }

  // The prefix a rule's text gives: all 128 bits without a slash.
  function WrittenPrefix(prefix: Option<string>): Option<nat> {
    if prefix.None? then Some(128)
    else if 1 <= |prefix.value| <= 3 && AllDigits(prefix.value) && DigitsValue(prefix.value) <= 128 then
      Some(DigitsValue(prefix.value))
    else None
  }

  lemma Ipv6RuleIsAcceptedExactly(cidr: string)
    ensures var address, prefix := ToBigInt(AddressPart(Trim(cidr))), WrittenPrefix(PrefixPart(Trim(cidr)));
            && (ParseIpv6Cidr(cidr).Accepted? <==> address.Some? && !IsMapped(address.value) && prefix.Some?)
            && (ParseIpv6Cidr(cidr).Accepted? ==> Some(ParseIpv6Cidr(cidr).prefix) == prefix)
  {
  }

  // What stands before a zone, and in brackets that stand alone or before a port of up
  // to five digits.
  ghost predicate BeforeZone(address: string, a: string) {
    a != "" && Lacks(a, '%') && exists zone :: address == a + "%" + zone
  }

  predicate IsPort(port: string) { port == "" || (2 <= |port| <= 6 && port[0] == ':' && AllDigits(port[1..])) }

  ghost predicate InBrackets(address: string, a: string) {
    a != "" && Lacks(a, ']') && exists port :: address == "[" + a + "]" + port && IsPort(port)
  }

  lemma BeforeZoneExactly(address: string, a: string)
    ensures BeforeZone(address, a)
       <==> var zone := IndexOf(address, "%", 0); zone > 0 && address[..zone] == a
  {
    FirstChar(address, '%');
    if BeforeZone(address, a) {
      var zone :| address == a + "%" + zone;
      FrontEndsAt(address, a, '%', zone);
    }
    var zone := IndexOf(address, "%", 0);
    if zone > 0 && address[..zone] == a { assert address == a + "%" + address[zone + 1..]; }
  }

  lemma BracketsEnd(address: string, a: string, port: string)
    requires address == "[" + a + "]" + port && Lacks(a, ']')
    ensures IndexOf(address, "]", 0) == |a| + 1 && address[1..|a| + 1] == a && address[|a| + 2..] == port
    ensures address[0] == '['
  {
    assert address == ("[" + a) + "]" + port;
    FrontEndsAt(address, "[" + a, ']', port);
  }

  lemma InBracketsExactly(address: string, a: string)
    ensures InBrackets(address, a) <==> Bracketed(address) == Some(a)
  {
    FirstChar(address, ']');
    if InBrackets(address, a) {
      var port :| address == "[" + a + "]" + port && IsPort(port);
      BracketsEnd(address, a, port);
    }
    if Bracketed(address) == Some(a) {
      var close := IndexOf(address, "]", 0);
      assert address == "[" + a + "]" + address[close + 1..];
    }
  }

  ghost predicate HasZone(address: string) { exists a :: BeforeZone(address, a) && ToBigInt(a).Some? }

  ghost predicate IsBracketed(address: string) { exists a :: InBrackets(address, a) && ToBigInt(a).Some? }

  lemma WhyNotIpv6Exactly(address: string)
    ensures WhyNotIpv6(address)
         == if HasZone(address) then ZoneId else if IsBracketed(address) then BracketsOrPort else NotIpv6
  {
    var zone := IndexOf(address, "%", 0);
    if zone > 0 { BeforeZoneExactly(address, address[..zone]); }
    if a :| BeforeZone(address, a) && ToBigInt(a).Some? { BeforeZoneExactly(address, a); }
    if Bracketed(address).Some? { InBracketsExactly(address, Bracketed(address).value); }
    if a :| InBrackets(address, a) && ToBigInt(a).Some? { InBracketsExactly(address, a); }
  }

  lemma RejectionIs(address: string, value: Option<nat>, prefix: Option<string>)
    requires ParsedRule(address, value, prefix).Rejected?
    ensures ParsedRule(address, value, prefix).reason
         == if value.None? then WhyNotIpv6(address) else if WrittenPrefix(prefix).None? then BadPrefix else Ipv4Mapped
  {
  }

  // Why a rule is refused: an address with a zone, or in brackets, is named as such; an
  // IPv4-mapped one only when its prefix is right.
  lemma Ipv6RejectionNamesTheReason(cidr: string, address: string)
    requires address == AddressPart(Trim(cidr)) && ParseIpv6Cidr(cidr).Rejected?
    ensures ParseIpv6Cidr(cidr).reason
         == if ToBigInt(address).None? then
              if HasZone(address) then ZoneId else if IsBracketed(address) then BracketsOrPort else NotIpv6
            else if WrittenPrefix(PrefixPart(Trim(cidr))).None? then BadPrefix else Ipv4Mapped
  {
    var value, prefix := ToBigInt(address), PrefixPart(Trim(cidr));
    assert ParseIpv6Cidr(cidr) == ParsedRule(address, value, prefix);
    RejectionIs(address, value, prefix);
    WhyNotIpv6Exactly(address);
  }

  lemma Ipv6RuleIsPrefixEquality(cidr: string, value: nat)
    requires value < Pow2(128)
    ensures Ipv6CidrContains(cidr, value)
       <==> && ParseIpv6Cidr(cidr).Accepted?
            && SamePrefix(value, ToBigInt(AddressPart(Trim(cidr))).value, ParseIpv6Cidr(cidr).prefix, 128)
  {
    if ParseIpv6Cidr(cidr).Accepted? {
      var address := AddressPart(Trim(cidr));
      ToBigIntBound(address);
      MaskedAreEqualExactly(value, ToBigInt(address).value, ParseIpv6Cidr(cidr).prefix, 128);
    }
  }
}
