// IPv6 addresses as 128-bit numbers (packages/shared/src/ipv6.ts).
module Ipv6 {
  import opened Basics
  import opened Text
  import opened Bits
  import opened Ipv6Text

  // --------------------------------------------------------------------
  // Groups and numbers
  // --------------------------------------------------------------------

  function Value(groups: seq<nat>): nat {
    if groups == [] then 0 else Shl(Value(groups[..|groups| - 1]), 16) + groups[|groups| - 1]
  }

  // The n leading groups of a 128-bit number.
  function Leading(value: nat, n: nat): (groups: seq<nat>)
    requires n <= 8
    ensures |groups| == n
  {
    if n == 0 then [] else Leading(value, n - 1) + [And(Shr(value, 128 - 16 * n), 0xffff)]
  }

  function Groups(value: nat): seq<nat> { Leading(value, 8) }

  // The number a text stands for.
  function ToBigInt(ip: string): Option<nat> {
    match ParseHost(ip)
    case Some(groups) => Some(Value(groups))
    case None => None
  }

  function TextOf(value: nat): string { Serialize(Groups(value)) }

  // --------------------------------------------------------------------
  // Values are 128 bits
  // --------------------------------------------------------------------

  lemma SixteenBits()
    ensures Pow2(16) == 0x1_0000
  {
    assert Pow2(8) == 256;
  }

  lemma {:induction false} LeadingAreGroups(value: nat, n: nat)
    requires n <= 8
    ensures forall k | 0 <= k < n :: Leading(value, n)[k] < 0x1_0000
  {
    if n > 0 {
      LeadingAreGroups(value, n - 1);
      SixteenBits();
      AndLow(Shr(value, 128 - 16 * n), 16);
    }
  }

  lemma {:induction false} LeadingValue(value: nat, n: nat)
    requires n <= 8 && Shr(value, 128) == 0
    ensures Value(Leading(value, n)) == Shr(value, 128 - 16 * n)
  {
    if n > 0 {
      var rest, front := 128 - 16 * n, Leading(value, n - 1);
      LeadingValue(value, n - 1);
      ShrAdd(value, rest, 16);
      SixteenBits();
      AndLow(Shr(value, rest), 16);
      ValueAppend(front, And(Shr(value, rest), 0xffff));
    }
  }

  lemma ValueAppend(groups: seq<nat>, group: nat)
    ensures Value(groups + [group]) == Shl(Value(groups), 16) + group
  {
    assert (groups + [group])[..|groups|] == groups;
  }

  lemma {:induction false} ValueBound(groups: seq<nat>)
    requires forall k | 0 <= k < |groups| :: groups[k] < 0x1_0000
    ensures Value(groups) < Pow2(16 * |groups|)
  {
    if groups != [] {
      var n := |groups| - 1;
      ValueBound(groups[..n]);
      SixteenBits();
      ShlBound(Value(groups[..n]), 16 * n, 16);
    }
  }

  lemma {:induction false} ShlBound(x: nat, p: nat, k: nat)
    requires x < Pow2(p)
    ensures Shl(x, k) + Pow2(k) <= Pow2(p + k)
  {
    if k > 0 { ShlBound(x, p, k - 1); }
  }

  lemma {:induction false} HexNumberBound(s: string)
    requires AllHex(s)
    ensures |s| <= 4 ==> HexNumber(s) < 0x1_0000
    ensures |s| <= 3 ==> HexNumber(s) < 0x1000
    ensures |s| <= 2 ==> HexNumber(s) < 0x100
    ensures |s| <= 1 ==> HexNumber(s) < 0x10
    ensures |s| == 0 ==> HexNumber(s) == 0
  {
    if s != "" { HexNumberBound(s[..|s| - 1]); }
  }

  lemma DottedBound(s: string)
    requires Dotted(s).Some?
    ensures Dotted(s).value < 0x1_0000_0000
  {
  }

  lemma {:induction false} PiecesAreGroups(pieces: seq<string>, mayEndDotted: bool)
    ensures var r := Pieces(pieces, mayEndDotted);
            r.Some? ==> forall k | 0 <= k < |r.value| :: r.value[k] < 0x1_0000
  {
    if pieces != [] {
      if IsGroup(pieces[0]) {
        HexNumberBound(pieces[0]);
        PiecesAreGroups(pieces[1..], mayEndDotted);
      } else if mayEndDotted && |pieces| == 1 && Dotted(pieces[0]).Some? {
        DottedBound(pieces[0]);
        assert Pieces(pieces, mayEndDotted).value
            == [Dotted(pieces[0]).value / 0x1_0000, Dotted(pieces[0]).value % 0x1_0000];
      }
    }
  }

  lemma SideGroups(s: string, mayEndDotted: bool)
    ensures var r := PiecesOf(s, mayEndDotted);
            r.Some? ==> forall k | 0 <= k < |r.value| :: r.value[k] < 0x1_0000
  {
    if s != "" { PiecesAreGroups(Split(s, ':'), mayEndDotted); }
  }

  lemma AroundIsAddress(left: seq<nat>, right: seq<nat>)
    requires |left| + |right| <= 7
    requires forall k | 0 <= k < |left| :: left[k] < 0x1_0000
    requires forall k | 0 <= k < |right| :: right[k] < 0x1_0000
    ensures IsAddress(Around(left, right))
  {
  }

  lemma ParsedIsAddress(s: string)
    ensures ParseHost(s).Some? ==> IsAddress(ParseHost(s).value)
  {
    var k := IndexOf(s, "::", 0);
    if ParseHost(s).Some? {
      if k != -1 {
        SideGroups(s[..k], false);
        SideGroups(s[k + 2..], true);
        AroundIsAddress(PiecesOf(s[..k], false).value, PiecesOf(s[k + 2..], true).value);
      } else {
        assert ParseHost(s) == Pieces(Split(s, ':'), true);
        PiecesAreGroups(Split(s, ':'), true);
      }
    }
  }

  lemma ToBigIntBound(ip: string)
    ensures ToBigInt(ip).Some? ==> ToBigInt(ip).value < Pow2(128)
  {
    ParsedIsAddress(ip);
    if ToBigInt(ip).Some? { ValueBound(ParseHost(ip).value); }
  }

  // --------------------------------------------------------------------
  // Every value survives being written and read
  // --------------------------------------------------------------------

  lemma GroupsHoldTheValue(value: nat)
    requires value < Pow2(128)
    ensures IsAddress(Groups(value)) && Value(Groups(value)) == value
  {
    LeadingAreGroups(value, 8);
    ShrBound(value, 0, 128);
    LeadingValue(value, 8);
  }

  // ipv6ToBigInt(bigIntToIpv6(v)) == v
  lemma RoundTrip(value: nat)
    requires value < Pow2(128)
    ensures ToBigInt(TextOf(value)) == Some(value)
  {
    GroupsHoldTheValue(value);
    SerializedIsRead(Groups(value));
  }

  // Two values are written alike only when they are the same.
  lemma TextIdentifiesTheValue(a: nat, b: nat)
    requires a < Pow2(128) && b < Pow2(128)
    ensures TextOf(a) == TextOf(b) <==> a == b
  {
    RoundTrip(a);
    RoundTrip(b);
  }

  // --------------------------------------------------------------------
  // The character check refuses no address
  // --------------------------------------------------------------------

  predicate IsAddressChar(c: char) { IsHexDigit(c) || c == ':' || c == '.' }

  predicate LooksLikeIpv6(ip: string) { ':' in ip && forall k | 0 <= k < |ip| :: IsAddressChar(ip[k]) }

  predicate AllAddressChars(s: string) { forall k | 0 <= k < |s| :: IsAddressChar(s[k]) }

  lemma {:induction false} PartsHoldTheChars(s: string, c: char)
    requires IsAddressChar(c) && forall k | 0 <= k < |Split(s, c)| :: AllAddressChars(Split(s, c)[k])
    ensures AllAddressChars(s)
    decreases |s|
  {
    var found, front, rest := CutFirst(s, c);
    assert AllAddressChars(Split(s, c)[0]);
    if found {
      assert Split(s, c)[1..] == Split(rest, c);
      forall i | 0 <= i < |Split(rest, c)| ensures AllAddressChars(Split(rest, c)[i]) {
        assert Split(rest, c)[i] == Split(s, c)[i + 1];
      }
      PartsHoldTheChars(rest, c);
      AroundOneChar(s, front, c, rest);
    }
  }

  lemma AroundOneChar(s: string, front: string, c: char, rest: string)
    requires s == front + [c] + rest && AllAddressChars(front) && IsAddressChar(c) && AllAddressChars(rest)
    ensures AllAddressChars(s)
  {
  }

  lemma DottedChars(s: string)
    ensures Dotted(s).Some? ==> AllAddressChars(s)
  {
    if Dotted(s).Some? { PartsHoldTheChars(s, '.'); }
  }

  lemma {:induction false} PiecesChars(pieces: seq<string>, mayEndDotted: bool)
    requires Pieces(pieces, mayEndDotted).Some?
    ensures forall k | 0 <= k < |pieces| :: AllAddressChars(pieces[k])
    ensures |Pieces(pieces, mayEndDotted).value| <= |pieces| + 1
  {
    if pieces != [] {
      if IsGroup(pieces[0]) {
        PiecesChars(pieces[1..], mayEndDotted);
        assert forall k | 0 < k < |pieces| :: pieces[k] == pieces[1..][k - 1];
      } else {
        DottedChars(pieces[0]);
      }
    }
  }

  lemma SideChars(s: string, mayEndDotted: bool)
    requires PiecesOf(s, mayEndDotted).Some?
    ensures AllAddressChars(s)
  {
    if s != "" {
      PiecesChars(Split(s, ':'), mayEndDotted);
      PartsHoldTheChars(s, ':');
    }
  }

  lemma AroundDoubleColon(s: string, k: nat)
    requires OccursAt(s, "::", k) && AllAddressChars(s[..k]) && AllAddressChars(s[k + 2..])
    ensures LooksLikeIpv6(s)
  {
    DoubleColonAt(s, k);
    forall i | 0 <= i < |s| ensures IsAddressChar(s[i]) {
      if i < k { assert s[i] == s[..k][i]; }
      if i > k + 1 { assert s[i] == s[k + 2..][i - k - 2]; }
    }
  }

  lemma CompressedLooksLikeIpv6(s: string, k: nat)
    requires k == IndexOf(s, "::", 0) && PiecesOf(s[..k], false).Some? && PiecesOf(s[k + 2..], true).Some?
    ensures LooksLikeIpv6(s)
  {
    IndexOfIsFirst(s, "::", 0);
    SideChars(s[..k], false);
    SideChars(s[k + 2..], true);
    AroundDoubleColon(s, k);
  }

  lemma FullLooksLikeIpv6(s: string)
    requires Pieces(Split(s, ':'), true).Some? && |Pieces(Split(s, ':'), true).value| == 8
    ensures LooksLikeIpv6(s)
  {
    PiecesChars(Split(s, ':'), true);
    PartsHoldTheChars(s, ':');
    FirstChar(s, ':');
  }

  lemma HostLooksLikeIpv6(s: string, k: int)
    requires k == IndexOf(s, "::", 0) && HostAt(s, k).Some?
    ensures LooksLikeIpv6(s)
  {
    if k != -1 { CompressedLooksLikeIpv6(s, k); } else { FullLooksLikeIpv6(s); }
  }

  lemma AddressesLookLikeIpv6(s: string)
    requires ParseHost(s).Some?
    ensures LooksLikeIpv6(s)
  {
    var k := IndexOf(s, "::", 0);
    assert ParseHost(s) == HostAt(s, k);
    HostLooksLikeIpv6(s, k);
  }

  // --------------------------------------------------------------------
  // The source's own expansion, fold and rendering
  // --------------------------------------------------------------------

  function SplitSide(raw: string): seq<string> { if |raw| > 0 then Split(raw, ':') else [] }

  lemma SplitsToGroups(groups: seq<nat>, s: string)
    requires s == Join(HexAll(groups), ":")
    ensures SplitSide(s) == HexAll(groups)
    ensures IndexOf(s, "::", 0) == -1
  {
    SideColons(groups, s);
    if groups != [] {
      SideIsSplit(groups, s);
      NoDoubleColon(s);
    }
  }

  // The text is cut at `k` into the groups on either side of the "::" there.
  ghost predicate IsCutAt(canonical: string, k: int, left: seq<nat>, right: seq<nat>) {
    && 0 <= k <= |canonical| - 2 && IndexOf(canonical[k + 2..], "::", 0) == -1
    && SplitSide(canonical[..k]) == HexAll(left) && SplitSide(canonical[k + 2..]) == HexAll(right)
  }

  lemma CompressedSides(left: seq<nat>, right: seq<nat>, l: string, r: string, canonical: string)
    requires l == Join(HexAll(left), ":") && r == Join(HexAll(right), ":") && canonical == l + "::" + r
    ensures IsCutAt(canonical, IndexOf(canonical, "::", 0), left, right)
  {
    SplitsToGroups(left, l);
    SplitsToGroups(right, r);
    SidesAreCut(left, l, r, canonical);
  }

  lemma FullText(groups: seq<nat>, canonical: string)
    requires IsAddress(groups) && Run(groups, LongestRun(groups, 0)) < 2 && canonical == Serialize(groups)
    ensures IndexOf(canonical, "::", 0) == -1 && Split(canonical, ':') == HexAll(groups)
  {
    SplitsToGroups(groups, canonical);
    SideColons(groups, canonical);
  }

  lemma CompressedText(groups: seq<nat>, canonical: string, start: nat, n: nat)
    requires IsAddress(groups) && start == LongestRun(groups, 0) && n == Run(groups, start) && n >= 2
    requires canonical == Serialize(groups)
    ensures canonical == Join(HexAll(groups[..start]), ":") + "::" + Join(HexAll(groups[start + n..]), ":")
  {
  }

  // What the two pieces of split('::') are when the text is compressed.
  lemma CompressedIsCut(canonical: string, left: seq<nat>, right: seq<nat>)
    requires canonical == Join(HexAll(left), ":") + "::" + Join(HexAll(right), ":")
    ensures IsCutAt(canonical, IndexOf(canonical, "::", 0), left, right)
  {
    CompressedSides(left, right, Join(HexAll(left), ":"), Join(HexAll(right), ":"), canonical);
  }

  // rest up to the next "::"
  function UpToNext(rest: string): string {
    var next := IndexOf(rest, "::", 0);
    if next == -1 then rest else rest[..next]
  }

  function ZeroTexts(n: nat): seq<string> { seq(n, _ => "0") }

  // The sides leave room for the zeros between them, and with those are the groups.
  ghost predicate Expands(canonical: string, k: int, groups: seq<nat>) {
    0 <= k <= |canonical| - 2 &&
    var h, t := SplitSide(canonical[..k]), SplitSide(UpToNext(canonical[k + 2..]));
    |h| + |t| <= 8 && h + ZeroTexts(8 - |h| - |t|) + t == HexAll(groups)
  }

  lemma CutExpands(groups: seq<nat>, canonical: string, k: int, left: seq<nat>, right: seq<nat>, n: nat)
    requires |groups| == 8 && groups == left + Zeros(n) + right && IsCutAt(canonical, k, left, right)
    ensures Expands(canonical, k, groups)
  {
    FilledGroups(groups, left, right, n);
  }

  lemma SidesExpand(groups: seq<nat>, canonical: string, k: int, start: nat, n: nat)
    requires IsAddress(groups) && start <= 8 && n == Run(groups, start)
    requires IsCutAt(canonical, k, groups[..start], groups[start + n..])
    ensures Expands(canonical, k, groups)
  {
    RunIsZeros(groups, start, n);
    CutExpands(groups, canonical, k, groups[..start], groups[start + n..], n);
  }

  lemma ExpandsToGroups(groups: seq<nat>, canonical: string, k: int)
    requires IsAddress(groups) && canonical == Serialize(groups) && k == IndexOf(canonical, "::", 0)
    ensures k == -1 ==> Split(canonical, ':') == HexAll(groups)
    ensures k != -1 ==> Expands(canonical, k, groups)
  {
    var start := LongestRun(groups, 0);
    var n := Run(groups, start);
    if n < 2 {
      FullText(groups, canonical);
    } else {
      CompressedText(groups, canonical, start, n);
      CompressedIsCut(canonical, groups[..start], groups[start + n..]);
      SidesExpand(groups, canonical, k, start, n);
    }
  }

  method FillSides(canonical: string, k: nat, ghost groups: seq<nat>) returns (head: seq<string>)
    requires Expands(canonical, k, groups)
    ensures head == HexAll(groups)
  {
    var h, t := SplitSide(canonical[..k]), SplitSide(UpToNext(canonical[k + 2..]));
    head := h + ZeroTexts(8 - |h| - |t|) + t;
  }

  // The groups of a canonical text, with "::" filled in.
  method ExpandGroups(canonical: string, ghost groups: seq<nat>) returns (head: seq<string>)
    requires IsAddress(groups) && canonical == Serialize(groups)
    ensures head == HexAll(groups)
  {
    var k := IndexOf(canonical, "::", 0);
    ExpandsToGroups(groups, canonical, k);
    if k != -1 {
      head := FillSides(canonical, k, groups);
    } else {
      head := Split(canonical, ':');
    }
  }

  lemma HexAllConcat(a: seq<nat>, b: seq<nat>)
    ensures HexAll(a + b) == HexAll(a) + HexAll(b)
  {
  }

  lemma ZeroTextsAre(n: nat)
    ensures ZeroTexts(n) == HexAll(Zeros(n))
  {
    assert Hex(0) == "0";
  }

  lemma FilledGroups(groups: seq<nat>, left: seq<nat>, right: seq<nat>, n: nat)
    requires groups == left + Zeros(n) + right
    ensures HexAll(left) + ZeroTexts(n) + HexAll(right) == HexAll(groups)
  {
    ZeroTextsAre(n);
    HexAllConcat(left, Zeros(n));
    HexAllConcat(left + Zeros(n), right);
  }

  lemma RunIsZeros(groups: seq<nat>, start: nat, n: nat)
    requires start <= |groups| && n == Run(groups, start)
    ensures groups == groups[..start] + Zeros(n) + groups[start + n..]
  {
  }

  // The fold over the groups; a group that is not hexadecimal is refused.
  method FoldGroups(head: seq<string>, ghost groups: seq<nat>) returns (r: Option<nat>)
    requires IsAddress(groups) && head == HexAll(groups)
    ensures r == Some(Value(groups))
  {
    var acc := 0;
    for i := 0 to |head|
      invariant acc == Value(groups[..i])
    {
      var group := head[i];
      GroupIsRead(groups[i]);
      if !IsGroup(group) { return None; }
      SixteenBits();
      OrLow(acc, HexNumber(group), 16);
      acc := Or(Shl(acc, 16), HexNumber(group));
      assert groups[..i + 1][..i] == groups[..i];
    }
    assert groups[..|head|] == groups;
    r := Some(acc);
  }

  method Ipv6ToBigInt(ip: string) returns (r: Option<nat>)
    ensures r == ToBigInt(ip)
  {
    if !LooksLikeIpv6(ip) {
      if ParseHost(ip).Some? { AddressesLookLikeIpv6(ip); }
      return None;
    }
    var host := ParseHost(ip);
    if host.None? { return None; }
    ParsedIsAddress(ip);
    var head := ExpandGroups(Serialize(host.value), host.value);
    if |head| != 8 { return None; }
    r := FoldGroups(head, host.value);
  }

  lemma HexAllAppend(groups: seq<nat>, group: nat)
    ensures HexAll(groups + [group]) == HexAll(groups) + [Hex(group)]
  {
  }

  // The host name the URL serializer gives for a full form.
  method Canonical(full: string, ghost groups: seq<nat>) returns (canonical: string)
    requires IsAddress(groups) && full == Join(HexAll(groups), ":")
    ensures canonical == Serialize(groups)
  {
    FullFormIsRead(groups);
    canonical := Serialize(ParseHost(full).value);
  }

  method BigIntToIpv6(value: nat) returns (text: string)
    ensures text == TextOf(value)
  {
    var texts: seq<string> := [];
    var shift := 112;
    ghost var n := 0;
    while shift >= 0
      invariant 0 <= n <= 8 && shift == 112 - 16 * n
      invariant texts == HexAll(Leading(value, n))
    {
      HexAllAppend(Leading(value, n), And(Shr(value, shift), 0xffff));
      texts := texts + [Hex(And(Shr(value, shift), 0xffff))];
      shift := shift - 16;
      n := n + 1;
    }
    LeadingAreGroups(value, 8);
    text := Canonical(Join(texts, ":"), Groups(value));
  }
}
