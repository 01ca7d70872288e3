// Letter case never changes which address a text is; a mapped address is its IPv4
// address in every spelling; a canonical rule is the rule it was made from.
module IpSpelling {
  import opened Basics
  import opened Text
  import opened Numerals
  import opened Bits
  import opened Ipv6Text
  import opened Ipv6
  import opened IpMatch
  import opened IpTheorems

  // --------------------------------------------------------------------
  // Letter case
  // --------------------------------------------------------------------

  predicate IsLetter(c: char) { 'A' <= c <= 'Z' || 'a' <= c <= 'z' }

  predicate Caseless(p: string) { forall k | 0 <= k < |p| :: !IsLetter(p[k]) }

  lemma LowerOccurs(s: string, p: string, k: int)
    requires Caseless(p)
    ensures OccursAt(LowerAll(s), p, k) <==> OccursAt(s, p, k)
  {
    var l := LowerAll(s);
    if 0 <= k <= |s| - |p| {
      forall i | 0 <= i < |p| ensures l[k..k + |p|][i] == p[i] <==> s[k..k + |p|][i] == p[i] {
        assert l[k + i] == Lower(s[k + i]);
      }
    }
  }

  lemma LowerIndexOf(s: string, p: string)
    requires Caseless(p)
    ensures IndexOf(LowerAll(s), p, 0) == IndexOf(s, p, 0)
  {
    var i, j := IndexOf(LowerAll(s), p, 0), IndexOf(s, p, 0);
    IndexOfIsFirst(LowerAll(s), p, 0);
    IndexOfIsFirst(s, p, 0);
    LowerOccurs(s, p, i);
    LowerOccurs(s, p, j);
  }

  function LowerEach(parts: seq<string>): (l: seq<string>)
    ensures |l| == |parts| && forall k | 0 <= k < |parts| :: l[k] == LowerAll(parts[k])
  {
    seq(|parts|, k requires 0 <= k < |parts| => LowerAll(parts[k]))
  }

  lemma LowerSlices(s: string, k: nat, n: nat)
    requires k <= n <= |s|
    ensures LowerAll(s)[..k] == LowerAll(s[..k]) && LowerAll(s)[n..] == LowerAll(s[n..])
  {
  }

  lemma LowerEachCons(part: string, parts: seq<string>)
    ensures LowerEach([part] + parts) == [LowerAll(part)] + LowerEach(parts)
    ensures LowerEach([part]) == [LowerAll(part)]
  {
  }

  lemma SplitAt(s: string, c: char, k: nat, head: string, tail: string)
    requires k == IndexOf(s, [c], 0) && k < |s| && head == s[..k] && tail == s[k + 1..]
    ensures Split(s, c) == [head] + Split(tail, c)
  {
  }

  lemma {:induction false} LowerSplit(s: string, c: char)
    requires !IsLetter(c)
    ensures Split(LowerAll(s), c) == LowerEach(Split(s, c))
    decreases |s|
  {
    var k, low := IndexOf(s, [c], 0), LowerAll(s);
    LowerIndexOf(s, [c]);
    if k != -1 {
      FirstChar(s, c);
      var head, tail := s[..k], s[k + 1..];
      LowerSlices(s, k, k + 1);
      LowerSplit(tail, c);
      SplitAt(s, c, k, head, tail);
      SplitAt(low, c, k, LowerAll(head), LowerAll(tail));
      LowerEachCons(head, Split(tail, c));
    } else {
      LowerEachCons(s, []);
    }
  }

  lemma {:induction false} LowerHex(s: string)
    ensures AllHex(LowerAll(s)) <==> AllHex(s)
    ensures AllHex(s) ==> HexNumber(LowerAll(s)) == HexNumber(s)
  {
    forall k | 0 <= k < |s| ensures IsHexDigit(LowerAll(s)[k]) <==> IsHexDigit(s[k]) {
      assert LowerAll(s)[k] == Lower(s[k]);
    }
    assert AllHex(s) ==> AllHex(LowerAll(s));
    if AllHex(LowerAll(s)) {
      forall k | 0 <= k < |s| ensures IsHexDigit(s[k]) { assert IsHexDigit(LowerAll(s)[k]); }
      if s != "" {
        var n := |s| - 1;
        LowerHex(s[..n]);
        LowerSlices(s, n, n);
        assert HexValue(Lower(s[n])) == HexValue(s[n]);
      }
    }
  }

  lemma LowerDigits(s: string)
    ensures AllDigits(LowerAll(s)) <==> AllDigits(s)
    ensures AllDigits(s) ==> LowerAll(s) == s
  {
    forall k | 0 <= k < |s| ensures IsDigit(LowerAll(s)[k]) <==> IsDigit(s[k]) { assert LowerAll(s)[k] == Lower(s[k]); }
    if AllDigits(LowerAll(s)) {
      forall k | 0 <= k < |s| ensures IsDigit(s[k]) { assert IsDigit(LowerAll(s)[k]); }
    }
  }

  lemma LowerByte(s: string)
    ensures IsByte(LowerAll(s)) <==> IsByte(s)
    ensures IsByte(s) ==> LowerAll(s) == s
  {
    LowerDigits(s);
  }

  lemma LowerDotted(s: string)
    ensures Dotted(LowerAll(s)) == Dotted(s)
  {
    var b := Split(s, '.');
    LowerSplit(s, '.');
    if |b| == 4 {
      LowerByte(b[0]);
      LowerByte(b[1]);
      LowerByte(b[2]);
      LowerByte(b[3]);
    }
  }

  lemma {:induction false} LowerPieces(pieces: seq<string>, mayEndDotted: bool)
    ensures Pieces(LowerEach(pieces), mayEndDotted) == Pieces(pieces, mayEndDotted)
  {
    if pieces != [] {
      LowerHex(pieces[0]);
      LowerPieces(pieces[1..], mayEndDotted);
      assert LowerEach(pieces)[1..] == LowerEach(pieces[1..]);
      LowerDotted(pieces[0]);
    }
  }

  lemma LowerSide(s: string, mayEndDotted: bool)
    ensures PiecesOf(LowerAll(s), mayEndDotted) == PiecesOf(s, mayEndDotted)
  {
    LowerSplit(s, ':');
    LowerPieces(Split(s, ':'), mayEndDotted);
  }

  lemma SameSides(s: string, t: string, k: nat)
    requires IndexOf(s, "::", 0) == k && IndexOf(t, "::", 0) == k && k + 2 <= |s| && k + 2 <= |t|
    requires PiecesOf(s[..k], false) == PiecesOf(t[..k], false)
          && PiecesOf(s[k + 2..], true) == PiecesOf(t[k + 2..], true)
    ensures ParseHost(s) == ParseHost(t)
  {
    assert ParseHost(s) == HostAt(s, k) && ParseHost(t) == HostAt(t, k);
  }

  lemma SameWhole(s: string, t: string)
    requires IndexOf(s, "::", 0) == -1 && IndexOf(t, "::", 0) == -1
    requires Pieces(Split(s, ':'), true) == Pieces(Split(t, ':'), true)
    ensures ParseHost(s) == ParseHost(t)
  {
  }

  lemma LowerHost(s: string)
    ensures ParseHost(LowerAll(s)) == ParseHost(s)
  {
    var k, low := IndexOf(s, "::", 0), LowerAll(s);
    LowerIndexOf(s, "::");
    if k != -1 {
      LowerSlices(s, k, k + 2);
      LowerSide(s[..k], false);
      LowerSide(s[k + 2..], true);
      SameSides(low, s, k);
    } else {
      LowerSplit(s, ':');
      LowerPieces(Split(s, ':'), true);
      SameWhole(low, s);
    }
  }

  // ipv6ToBigInt reads hexadecimal digits in either case.
  lemma CaseDoesNotMatter(s: string)
    ensures ToBigInt(LowerAll(s)) == ToBigInt(s)
  {
    LowerHost(s);
  }

  // --------------------------------------------------------------------
  // Rules
  // --------------------------------------------------------------------

  lemma PartsAt(text: string, slash: nat, head: string, tail: string)
    requires slash == IndexOf(text, "/", 0) && slash < |text| && head == text[..slash] && tail == text[slash + 1..]
    ensures AddressPart(text) == head && PrefixPart(text) == Some(tail)
  {
  }

  lemma LowerParts(text: string, low: string)
    requires low == LowerAll(text)
    ensures AddressPart(low) == LowerAll(AddressPart(text))
    ensures PrefixPart(low) == if PrefixPart(text).None? then None else Some(LowerAll(PrefixPart(text).value))
  {
    LowerIndexOf(text, "/");
    FirstChar(text, '/');
    var slash := IndexOf(text, "/", 0);
    if slash != -1 {
      var head, tail := text[..slash], text[slash + 1..];
      PartsAt(text, slash, head, tail);
      LowerSlices(text, slash, slash + 1);
      PartsAt(low, slash, LowerAll(head), LowerAll(tail));
    }
  }

  // The catch-all check lower-cases a rule before parsing it; the matcher does not.
  lemma ShownRuleIsTheSameRule(cidr: string)
    ensures ParseIpv6Cidr(Shown(cidr)).Accepted? == ParseIpv6Cidr(cidr).Accepted?
    ensures ParseIpv6Cidr(cidr).Accepted? ==> ParseIpv6Cidr(Shown(cidr)) == ParseIpv6Cidr(cidr)
  {
    var text := Trim(cidr);
    ShownStays(cidr);
    LowerParts(text, LowerAll(text));
    CaseDoesNotMatter(AddressPart(text));
    if PrefixPart(text).Some? { LowerDigits(PrefixPart(text).value); }
  }

  lemma AddressCharsAreTrimmed(s: string)
    requires LooksLikeIpv6(s)
    ensures Trim(s) == s
  {
    TrimmedStays(s);
  }

  lemma AddressTextIsNoShortcut(address: string, value: nat)
    requires ToBigInt(LowerAll(address)) == Some(value) && !IsMapped(value)
    ensures !(MAPPED <= LowerAll(address) && IsDottedText(LowerAll(address)[7..]))
  {
    var text := LowerAll(address);
    if MAPPED <= text && IsDottedText(text[7..]) { DottedTailIsMapped(text, value); }
  }

  // --------------------------------------------------------------------
  // IPv4-mapped addresses
  // --------------------------------------------------------------------

  lemma TwoPieces(right: string, d: string)
    requires right == "ffff:" + d && Lacks(d, ':')
    ensures Split(right, ':') == ["ffff", d]
  {
    var parts: seq<string> := ["ffff", d];
    assert Join(parts, ":") == "ffff" + ":" + Join(parts[1..], ":") && parts[1..] == [d];
    assert right == "ffff" + ":" + d;
    SplitOfJoin(parts, ':');
  }

  lemma DottedTailIsNoGroup(d: string)
    requires IsDottedText(d)
    ensures !IsGroup(d) && Lacks(d, ':')
  {
    SplitIsPlain(d);
    FirstChar(d, '.');
    var k := IndexOf(d, ".", 0);
    assert k != -1 && !IsHexDigit(d[k]);
  }

  lemma FfffIsAGroup()
    ensures IsGroup("ffff") && HexNumber("ffff") == 0xffff
  {
    HexNumberAppend("", 'f');
    assert "" + ['f'] == "f";
    HexNumberAppend("f", 'f');
    assert "f" + ['f'] == "ff";
    HexNumberAppend("ff", 'f');
    assert "ff" + ['f'] == "fff";
    HexNumberAppend("fff", 'f');
    assert "fff" + ['f'] == "ffff";
  }

  lemma MappedPieces(d: string)
    requires IsDottedText(d)
    ensures var r := Pieces(["ffff", d], true);
            if Dotted(d).None? then r.None?
            else r == Some([0xffff] + [Dotted(d).value / 0x1_0000, Dotted(d).value % 0x1_0000])
  {
    DottedTailIsNoGroup(d);
    FfffIsAGroup();
    var pieces: seq<string> := ["ffff", d];
    var last: seq<string> := [d];
    assert pieces[1..] == last && pieces[0] == "ffff" && last[0] == d;
    assert Pieces(last, true)
        == if Dotted(d).None? then None else Some([Dotted(d).value / 0x1_0000, Dotted(d).value % 0x1_0000]);
  }

  lemma MappedTextIsCut(text: string, d: string)
    requires text == MAPPED + d && IsDottedText(d)
    ensures IndexOf(text, "::", 0) == 0 && |text| >= 2 && text[..0] == "" && text[2..] == "ffff:" + d
  {
    var right := "ffff:" + d;
    DottedTailIsNoGroup(d);
    assert text == "" + "::" + right;
    FirstDoubleColon("", right);
    assert text[..0] == "" && text[2..] == right;
  }

  lemma MappedSide(right: string, d: string)
    requires right == "ffff:" + d && IsDottedText(d)
    ensures PiecesOf(right, true) == Pieces(["ffff", d], true)
  {
    DottedTailIsNoGroup(d);
    TwoPieces(right, d);
  }

  // The value of "::ffff:d.d.d.d".
  lemma MappedTextIsRead(text: string, d: string)
    requires text == MAPPED + d && IsDottedText(d)
    ensures ParseHost(text).Some? <==> Dotted(d).Some?
    ensures Dotted(d).Some? ==>
      ParseHost(text) == Some(Around([], [0xffff] + [Dotted(d).value / 0x1_0000, Dotted(d).value % 0x1_0000]))
  {
    MappedTextIsCut(text, d);
    MappedSide("ffff:" + d, d);
    MappedPieces(d);
    assert ParseHost(text) == FromSides(Some([]), Pieces(["ffff", d], true));
  }

  lemma MappedGroupsAre(hi: nat, lo: nat)
    ensures Around([], [0xffff] + [hi, lo]) == Zeros(5) + [0xffff] + [hi] + [lo]
  {
  }

  lemma FrontValue(top: nat)
    ensures Value(Zeros(5) + [top]) == top
  {
    ZerosValue(5);
    ShlZero(16);
    ValueAppend(Zeros(5), top);
  }

  lemma TwoShifts(top: nat, hi: nat, lo: nat)
    ensures Shl(Shl(top, 16) + hi, 16) + lo == Shl(top, 32) + (hi * 0x1_0000 + lo)
  {
    ShlSum(Shl(top, 16), hi, 16);
    ShlTwice(top, 16, 16);
    Times65536(hi);
  }

  lemma TwoMoreGroups(front: seq<nat>, hi: nat, lo: nat, one: seq<nat>)
    requires one == front + [hi]
    ensures Value(one + [lo]) == Shl(Shl(Value(front), 16) + hi, 16) + lo
  {
    ValueAppend(front, hi);
    ValueAppend(one, lo);
  }

  lemma MappedGroupsValue(hi: nat, lo: nat)
    ensures Value(Around([], [0xffff] + [hi, lo])) == Shl(0xffff, 32) + (hi * 0x1_0000 + lo)
  {
    MappedGroupsAre(hi, lo);
    FrontValue(0xffff);
    TwoMoreGroups(Zeros(5) + [0xffff], hi, lo, Zeros(5) + [0xffff] + [hi]);
    TwoShifts(0xffff, hi, lo);
  }

  lemma HighAndLow(top: nat, low: nat, value: nat)
    requires low < TWO_32 && value == Shl(top, 32) + low
    ensures Shr(value, 32) == top && And(value, 0xffff_ffff) == low
  {
    TwoToThe32();
    ShrOfShl(top, low, 32);
    AndLow(value, 32);
  }

  lemma {:induction false} ZerosValue(n: nat)
    ensures Value(Zeros(n)) == 0
  {
    ShlZero(16);
    if n > 0 {
      ZerosValue(n - 1);
      assert Zeros(n)[..n - 1] == Zeros(n - 1);
    }
  }

  lemma {:induction false} ShlSum(x: nat, y: nat, k: nat)
    ensures Shl(x + y, k) == Shl(x, k) + Shl(y, k)
  {
    if k > 0 { ShlSum(x, y, k - 1); }
  }

  lemma {:induction false} ShlTwice(x: nat, j: nat, k: nat)
    ensures Shl(Shl(x, j), k) == Shl(x, j + k)
  {
    if k > 0 {
      ShlTwice(x, j, k - 1);
      assert j + k - 1 == j + (k - 1);
    }
  }

  lemma Times65536(x: nat)
    ensures Shl(x, 16) == x * 0x1_0000
  {
    ShlTwice(x, 8, 8);
    Times256(x);
    Times256(Shl(x, 8));
  }

  // "::ffff:d.d.d.d" is the mapped address of the dotted tail.
  lemma DottedTailIsMapped(text: string, value: nat)
    requires MAPPED <= text && IsDottedText(text[7..]) && ToBigInt(text) == Some(value)
    ensures IsMapped(value) && Dotted(text[7..]) == Some(And(value, 0xffff_ffff))
  {
    var d := text[7..];
    assert text == MAPPED + d;
    MappedTextIsRead(text, d);
    var n := Dotted(d).value;
    DottedBound(d);
    MappedGroupsValue(n / 0x1_0000, n % 0x1_0000);
    HighAndLow(0xffff, n, value);
  }

  lemma DottedBound(d: string)
    ensures Dotted(d).Some? ==> Dotted(d).value < TWO_32
  {
  }

  lemma DecimalAppend(n: nat, c: char)
    requires IsDigit(c)
    ensures Decimal(10 * n + (c - '0') as nat) == (if n == 0 then "" else Decimal(n)) + [c]
  {
    var d := (c - '0') as nat;
    assert (10 * n + d) / 10 == n && (10 * n + d) % 10 == d;
  }

  lemma DigitsAppend(front: string, c: char)
    requires AllDigits(front) && IsDigit(c)
    ensures AllDigits(front + [c]) && DigitsValue(front + [c]) == 10 * DigitsValue(front) + (c - '0') as nat
  {
    assert (front + [c])[..|front|] == front;
  }

  lemma NumeralStep(front: string, c: char, v: nat)
    requires AllDigits(front) && IsDigit(c) && v == DigitsValue(front)
    requires if front == "" then v == 0 else v > 0 && Decimal(v) == front
    ensures AllDigits(front + [c]) && Decimal(DigitsValue(front + [c])) == front + [c]
  {
    DigitsAppend(front, c);
    DecimalAppend(v, c);
  }

  lemma {:induction false} NumeralIsPositive(s: string)
    requires s != "" && AllDigits(s) && s[0] != '0'
    ensures DigitsValue(s) > 0
  {
    assert IsDigit(s[0]);
    if |s| > 1 { NumeralIsPositive(s[..|s| - 1]); }
  }

  // Decimal digits without a leading zero are the numeral of their value.
  lemma {:induction false} NumeralIsDecimal(s: string)
    requires s != "" && AllDigits(s) && (|s| > 1 ==> s[0] != '0')
    ensures Decimal(DigitsValue(s)) == s
  {
    var front, last := s[..|s| - 1], s[|s| - 1];
    assert IsDigit(last) && s == front + [last];
    if front != "" {
      NumeralIsPositive(front);
      NumeralIsDecimal(front);
    }
    NumeralStep(front, last, DigitsValue(front));
  }

  lemma DottedIsCanonical(d: string)
    requires Dotted(d).Some?
    ensures d == IntToIpv4(Dotted(d).value)
  {
    var b := Split(d, '.');
    JoinOfSplit(d, '.');
    assert b == [b[0], b[1], b[2], b[3]];
    ByteNumerals(b[0], b[1], b[2], b[3], Dotted(d).value);
  }

  lemma ByteNumerals(p: string, q: string, r: string, s: string, n: nat)
    requires IsByte(p) && IsByte(q) && IsByte(r) && IsByte(s)
    requires n == ((DigitsValue(p) * 256 + DigitsValue(q)) * 256 + DigitsValue(r)) * 256 + DigitsValue(s)
    ensures IntToIpv4(n) == Join([p, q, r, s], ".")
  {
    NumeralIsDecimal(p);
    NumeralIsDecimal(q);
    NumeralIsDecimal(r);
    NumeralIsDecimal(s);
    FourBytes(DigitsValue(p), DigitsValue(q), DigitsValue(r), DigitsValue(s), n);
  }

  lemma FourBytes(a: nat, b: nat, c: nat, d: nat, n: nat)
    requires a < 256 && b < 256 && c < 256 && d < 256 && n == ((a * 256 + b) * 256 + c) * 256 + d
    ensures IntToIpv4(n) == Join([Decimal(a), Decimal(b), Decimal(c), Decimal(d)], ".")
  {
    BytesOf(n);
    BytesAreUnique(Shr(n, 24), And(Shr(n, 16), 255), And(Shr(n, 8), 255), And(n, 255), a, b, c, d);
  }

  lemma BytesAreUnique(a: nat, b: nat, c: nat, d: nat, p: nat, q: nat, r: nat, s: nat)
    requires a < 256 && b < 256 && c < 256 && d < 256 && p < 256 && q < 256 && r < 256 && s < 256
    requires ((a * 256 + b) * 256 + c) * 256 + d == ((p * 256 + q) * 256 + r) * 256 + s
    ensures a == p && b == q && c == r && d == s
  {
  }

  lemma {:induction false} JoinOfSplit(s: string, c: char)
    ensures Join(Split(s, c), [c]) == s
    decreases |s|
  {
    var found, front, rest := CutFirst(s, c);
    if found {
      JoinOfSplit(rest, c);
      assert ([front] + Split(rest, c))[1..] == Split(rest, c);
    }
  }

  // An IPv4-mapped client, however it is written, is its IPv4 address.
  lemma MappedClientIsItsIpv4(ip: string, value: nat)
    requires ToBigInt(Shown(ip)) == Some(value) && IsMapped(value)
    ensures Classify(ip) == V4(IntToIpv4(And(value, 0xffff_ffff)))
  {
    var text := Shown(ip);
    AddressesLookLikeIpv6(text);
    if MAPPED <= text && IsDottedText(text[7..]) {
      DottedTailIsMapped(text, value);
      DottedIsCanonical(text[7..]);
    }
  }

  // --------------------------------------------------------------------
  // Accepted rules
  // --------------------------------------------------------------------

  // A rule that validates can match: it matches the address it was written with.
  lemma AcceptedRuleMatchesItsAddress(cidr: string)
    requires ParseIpv6Cidr(cidr).Accepted?
    ensures var address := AddressPart(Trim(cidr));
            Classify(address).V6? && Contains(Classify(address), cidr)
  {
    var address := AddressPart(Trim(cidr));
    var value := ToBigInt(address).value;
    AddressesLookLikeIpv6(address);
    AddressCharsAreTrimmed(address);
    CaseDoesNotMatter(address);
    AddressTextIsNoShortcut(address, value);
    AddressesLookLikeIpv6(LowerAll(address));
    ClassifiedByValue(address, LowerAll(address), value);
    ToBigIntBound(address);
    Ipv6RuleIsPrefixEquality(cidr, value);
  }

  lemma PrefixTextIs(prefix: nat)
    requires prefix <= 128
    ensures IsPrefixText(Decimal(prefix)) && DigitsValue(Decimal(prefix)) == prefix
  {
    DecimalIsRead(prefix);
    DecimalLength(prefix, 3);
    assert Pow10(3) == 1000;
  }

  lemma PartsOfCanonical(address: string, tail: string)
    requires Lacks(address, '/')
    ensures AddressPart(address) == address && PrefixPart(address).None?
    ensures AddressPart(address + "/" + tail) == address && PrefixPart(address + "/" + tail) == Some(tail)
  {
    FirstChar(address, '/');
    var s := address + "/" + tail;
    FirstChar(s, '/');
    assert s[|address|] == '/' && forall k | 0 <= k < |address| :: s[k] == address[k];
    assert s[..|address|] == address && s[|address| + 1..] == tail;
  }

  // The canonical text of a rule is the same rule, and is its own canonical text.
  lemma RuleOf(input: string, address: string, prefixText: Option<string>, value: nat)
    requires Trim(input) == input && AddressPart(input) == address && PrefixPart(input) == prefixText
    requires ToBigInt(address) == Some(value) && !IsMapped(value)
          && (prefixText.Some? ==> IsPrefixText(prefixText.value))
    ensures var prefix := if prefixText.None? then 128 else DigitsValue(prefixText.value);
            ParseIpv6Cidr(input) == Accepted(And(value, PrefixMask(prefix, 128)), PrefixMask(prefix, 128), prefix,
                                             if prefixText.None? then TextOf(value)
                                             else TextOf(value) + "/" + Decimal(prefix))
  {
  }

  lemma BareCanonical(value: nat)
    requires value < Pow2(128) && !IsMapped(value)
    ensures ParseIpv6Cidr(TextOf(value))
         == Accepted(And(value, PrefixMask(128, 128)), PrefixMask(128, 128), 128, TextOf(value))
  {
    TextOfIsPlain(value);
    RoundTrip(value);
    PartsOfCanonical(TextOf(value), "");
    PlainIsShown(TextOf(value));
    RuleOf(TextOf(value), TextOf(value), None, value);
  }

  lemma SlashedIsPlain(address: string, tail: string)
    requires AllPlain(address) && AllDigits(tail)
    ensures AllPlain(address + "/" + tail)
  {
    DigitsArePlain(tail);
  }

  lemma SlashedCanonical(value: nat, prefix: nat, text: string, canonical: string)
    requires value < Pow2(128) && !IsMapped(value) && prefix <= 128
    requires text == TextOf(value) && canonical == text + "/" + Decimal(prefix)
    ensures ParseIpv6Cidr(canonical)
         == Accepted(And(value, PrefixMask(prefix, 128)), PrefixMask(prefix, 128), prefix, canonical)
  {
    TextOfIsPlain(value);
    RoundTrip(value);
    PrefixTextIs(prefix);
    PartsOfCanonical(text, Decimal(prefix));
    SlashedIsPlain(text, Decimal(prefix));
    PlainIsShown(canonical);
    RuleOf(canonical, text, Some(Decimal(prefix)), value);
  }

  lemma CanonicalIsTheSameRule(cidr: string)
    requires ParseIpv6Cidr(cidr).Accepted?
    ensures ParseIpv6Cidr(ParseIpv6Cidr(cidr).canonical) == ParseIpv6Cidr(cidr)
  {
    var text := Trim(cidr);
    var prefixText := PrefixPart(text);
    var value := ToBigInt(AddressPart(text)).value;
    var rule := ParseIpv6Cidr(cidr);
    TrimTrims(cidr);
    RuleOf(text, AddressPart(text), prefixText, value);
    ToBigIntBound(AddressPart(text));
    if prefixText.None? {
      BareCanonical(value);
    } else {
      SlashedCanonical(value, rule.prefix, TextOf(value), rule.canonical);
    }
  }
}
