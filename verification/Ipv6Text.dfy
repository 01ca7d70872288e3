// IPv6 address text: the forms of section 2.2 of RFC 4291 and the canonical form of
// section 4.2 of RFC 5952. This stands for the URL host parser and serializer the
// source calls; an embedded IPv4 tail is read as the WHATWG URL standard reads it,
// without leading zeros.
module Ipv6Text {
  import opened Basics
  import opened Text
  import opened Numerals

  // Eight 16-bit groups, the most significant first.
  predicate IsAddress(groups: seq<nat>) {
    |groups| == 8 && forall k | 0 <= k < 8 :: groups[k] < 0x1_0000
  }

  // --------------------------------------------------------------------
  // Reading
  // --------------------------------------------------------------------

  predicate IsHexDigit(c: char) { IsDigit(c) || 'a' <= c <= 'f' || 'A' <= c <= 'F' }

  predicate AllHex(s: string) { forall k | 0 <= k < |s| :: IsHexDigit(s[k]) }

  function HexValue(c: char): (v: nat)
    requires IsHexDigit(c)
    ensures v < 16
  {
    if IsDigit(c) then (c - '0') as nat else if 'a' <= c then (c - 'a') as nat + 10 else (c - 'A') as nat + 10
  }

  function HexNumber(s: string): nat
    requires AllHex(s)
  {
    if s == "" then 0
    else assert IsHexDigit(s[|s| - 1]); 16 * HexNumber(s[..|s| - 1]) + HexValue(s[|s| - 1])
  }

  // x: one to four hexadecimal digits.
  predicate IsGroup(s: string) { 1 <= |s| <= 4 && AllHex(s) }

  // d.d.d.d: four decimal bytes, as one 32-bit number.
  predicate IsByte(s: string) {
    1 <= |s| <= 3 && AllDigits(s) && DigitsValue(s) <= 255 && (|s| > 1 ==> s[0] != '0')
  }

  function Dotted(s: string): Option<nat> {
    var b := Split(s, '.');
    if |b| == 4 && IsByte(b[0]) && IsByte(b[1]) && IsByte(b[2]) && IsByte(b[3])
    then Some(((DigitsValue(b[0]) * 256 + DigitsValue(b[1])) * 256 + DigitsValue(b[2])) * 256 + DigitsValue(b[3]))
    else None
  }

  // Groups between colons; the last piece may be an IPv4 tail worth two groups.
  function Pieces(pieces: seq<string>, mayEndDotted: bool): Option<seq<nat>> {
    if pieces == [] then Some([])
    else if IsGroup(pieces[0]) then
      match Pieces(pieces[1..], mayEndDotted)
      case Some(groups) => Some([HexNumber(pieces[0])] + groups)
      case None => None
    else if mayEndDotted && |pieces| == 1 then
      match Dotted(pieces[0])
      case Some(n) => Some([n / 0x1_0000, n % 0x1_0000])
      case None => None
    else None
  }

  function PiecesOf(s: string, mayEndDotted: bool): Option<seq<nat>> {
    if s == "" then Some([]) else Pieces(Split(s, ':'), mayEndDotted)
  }

  function Zeros(n: nat): (z: seq<nat>)
    ensures |z| == n && forall k | 0 <= k < n :: z[k] == 0
  {
    if n == 0 then [] else Zeros(n - 1) + [0]
  }

  // The zeros "::" stands for: one group or more, enough to make eight.
  function Around(left: seq<nat>, right: seq<nat>): seq<nat>
    requires |left| + |right| <= 7
  {
    left + Zeros(8 - |left| - |right|) + right
  }

  // The pieces on either side of "::" together.
  function FromSides(left: Option<seq<nat>>, right: Option<seq<nat>>): Option<seq<nat>> {
    if left.None? || right.None? || |left.value| + |right.value| > 7 then None
    else Some(Around(left.value, right.value))
  }

  function FromWhole(all: Option<seq<nat>>): Option<seq<nat>> {
    if all.None? || |all.value| != 8 then None else all
  }

  // The address read from `s` with "::" at `k`, or with none when `k` is -1.
  function HostAt(s: string, k: int): Option<seq<nat>>
    requires k == -1 || 0 <= k <= |s| - 2
  {
    if k != -1 then FromSides(PiecesOf(s[..k], false), PiecesOf(s[k + 2..], true))
    else FromWhole(Pieces(Split(s, ':'), true))
  }

  // The address a text stands for.
  function ParseHost(s: string): Option<seq<nat>> { HostAt(s, IndexOf(s, "::", 0)) }

  // --------------------------------------------------------------------
  // Writing
  // --------------------------------------------------------------------

  function HexDigit(d: nat): (c: char)
    requires d < 16
    ensures IsHexDigit(c) && HexValue(c) == d
  {
    if d < 10 then '0' + d as char else 'a' + (d - 10) as char
  }

  // n.toString(16)
  function Hex(n: nat): (s: string)
    ensures s != "" && AllHex(s)
  {
    (if n < 16 then "" else Hex(n / 16)) + [HexDigit(n % 16)]
  }

  function HexAll(groups: seq<nat>): (texts: seq<string>)
    ensures |texts| == |groups| && forall k | 0 <= k < |groups| :: texts[k] == Hex(groups[k])
  {
    seq(|groups|, k requires 0 <= k < |groups| => Hex(groups[k]))
  }

  // How many zero groups stand from `i` on.
  function Run(groups: seq<nat>, i: nat): (n: nat)
    requires i <= |groups|
    ensures i + n <= |groups| && (forall k | i <= k < i + n :: groups[k] == 0)
    ensures i + n < |groups| ==> groups[i + n] != 0
    decreases |groups| - i
  {
    if i < |groups| && groups[i] == 0 then 1 + Run(groups, i + 1) else 0
  }

  // Where the first of the longest runs of zero groups starts, from `i` on.
  function LongestRun(groups: seq<nat>, i: nat): (start: nat)
    requires i <= |groups|
    ensures i <= start <= |groups|
    ensures forall k | i <= k <= |groups| :: Run(groups, k) <= Run(groups, start)
    ensures forall k | i <= k < start :: Run(groups, k) < Run(groups, start)
    decreases |groups| - i
  {
    if i == |groups| then i
    else
      var later := LongestRun(groups, i + 1);
      if Run(groups, i) >= Run(groups, later) then i else later
  }

  function WriteAround(groups: seq<nat>, start: nat, n: nat): string
    requires start + n <= |groups|
  {
    if n < 2 then Join(HexAll(groups), ":")
    else Join(HexAll(groups[..start]), ":") + "::" + Join(HexAll(groups[start + n..]), ":")
  }

  // RFC 5952: lower case, no leading zeros, and "::" for the first longest run of
  // zeros when it is longer than one group.
  function Serialize(groups: seq<nat>): string {
    var start := LongestRun(groups, 0);
    WriteAround(groups, start, Run(groups, start))
  }

  // --------------------------------------------------------------------
  // Writing, then reading
  // --------------------------------------------------------------------

  lemma HexNumberAppend(front: string, c: char)
    requires AllHex(front) && IsHexDigit(c)
    ensures AllHex(front + [c]) && HexNumber(front + [c]) == 16 * HexNumber(front) + HexValue(c)
  {
    assert (front + [c])[..|front|] == front;
  }

  lemma {:induction false} HexIsRead(n: nat)
    ensures HexNumber(Hex(n)) == n
  {
    if n >= 16 {
      HexIsRead(n / 16);
      HexNumberAppend(Hex(n / 16), HexDigit(n % 16));
    } else {
      HexNumberAppend("", HexDigit(n));
    }
  }

  lemma GroupIsRead(n: nat)
    requires n < 0x1_0000
    ensures IsGroup(Hex(n)) && HexNumber(Hex(n)) == n
  {
    HexIsRead(n);
    assert n >= 16 ==> |Hex(n)| == 1 + |Hex(n / 16)|;
    assert n / 16 >= 16 ==> |Hex(n / 16)| == 1 + |Hex(n / 16 / 16)|;
    assert n / 16 / 16 >= 16 ==> |Hex(n / 16 / 16)| == 1 + |Hex(n / 16 / 16 / 16)|;
  }

  // Colon-free and not empty.
  predicate IsPiece(s: string) { s != "" && Lacks(s, ':') }

  predicate ArePieces(pieces: seq<string>) { forall k | 0 <= k < |pieces| :: IsPiece(pieces[k]) }

  lemma HexIsPiece(groups: seq<nat>)
    ensures ArePieces(HexAll(groups))
  {
    forall k | 0 <= k < |groups| ensures IsPiece(HexAll(groups)[k]) {
      var h := Hex(groups[k]);
      forall i | 0 <= i < |h| ensures h[i] != ':' { assert IsHexDigit(h[i]); }
    }
  }

  // No two colons side by side, and none at either end.
  predicate SingleColons(s: string) {
    && s != "" && s[0] != ':' && s[|s| - 1] != ':'
    && forall k | 0 <= k < |s| - 1 :: s[k] != ':' || s[k + 1] != ':'
  }

  lemma {:induction false} JoinHasSingleColons(pieces: seq<string>)
    requires pieces != [] && ArePieces(pieces)
    ensures SingleColons(Join(pieces, ":"))
  {
    if |pieces| > 1 {
      assert ArePieces(pieces[1..]);
      JoinHasSingleColons(pieces[1..]);
      PrependPiece(pieces[0], Join(pieces[1..], ":"));
    }
  }

  lemma PrependPiece(piece: string, rest: string)
    requires IsPiece(piece) && SingleColons(rest)
    ensures SingleColons(piece + ":" + rest)
  {
    var s, n := piece + ":" + rest, |piece|;
    assert forall k | 0 <= k < n :: s[k] == piece[k];
    assert s[n] == ':' && forall k | n < k < |s| :: s[k] == rest[k - n - 1];
  }

  lemma DoubleColonAt(s: string, k: nat)
    ensures OccursAt(s, "::", k) <==> k + 1 < |s| && s[k] == ':' && s[k + 1] == ':'
  {
    if k + 1 < |s| { assert s[k..k + 2] == [s[k], s[k + 1]]; }
  }

  lemma NoDoubleColon(s: string)
    requires SingleColons(s)
    ensures IndexOf(s, "::", 0) == -1
  {
    forall k: nat ensures !OccursAt(s, "::", k) { DoubleColonAt(s, k); }
    IndexOfIsFirst(s, "::", 0);
  }

  lemma FirstDoubleColon(left: string, right: string)
    requires left == "" || SingleColons(left)
    ensures IndexOf(left + "::" + right, "::", 0) == |left|
  {
    var s := left + "::" + right;
    assert forall k | 0 <= k < |left| :: s[k] == left[k];
    assert s[|left|] == ':' && s[|left| + 1] == ':';
    DoubleColonAt(s, |left|);
    forall k: nat | k < |left| ensures !OccursAt(s, "::", k) { DoubleColonAt(s, k); }
    IndexOfIsFirst(s, "::", 0);
  }

  lemma {:induction false} GroupsAreRead(groups: seq<nat>, mayEndDotted: bool)
    requires forall k | 0 <= k < |groups| :: groups[k] < 0x1_0000
    ensures Pieces(HexAll(groups), mayEndDotted) == Some(groups)
  {
    if groups != [] {
      var texts := HexAll(groups);
      assert texts[1..] == HexAll(groups[1..]) && texts[0] == Hex(groups[0]);
      GroupIsRead(groups[0]);
      GroupsAreRead(groups[1..], mayEndDotted);
      assert [groups[0]] + groups[1..] == groups;
    }
  }

  // A list of groups, written and read back.
  lemma SideIsRead(groups: seq<nat>, s: string, mayEndDotted: bool)
    requires (forall k | 0 <= k < |groups| :: groups[k] < 0x1_0000) && s == Join(HexAll(groups), ":")
    ensures PiecesOf(s, mayEndDotted) == Some(groups)
  {
    if groups != [] {
      SideColons(groups, s);
      SideIsSplit(groups, s);
      GroupsAreRead(groups, mayEndDotted);
    }
  }

  lemma SideColons(groups: seq<nat>, s: string)
    requires s == Join(HexAll(groups), ":")
    ensures if groups == [] then s == "" else SingleColons(s)
  {
    HexIsPiece(groups);
    if groups != [] { JoinHasSingleColons(HexAll(groups)); }
  }

  lemma SideIsSplit(groups: seq<nat>, s: string)
    requires groups != [] && s == Join(HexAll(groups), ":")
    ensures Split(s, ':') == HexAll(groups)
  {
    HexIsPiece(groups);
    SplitOfJoin(HexAll(groups), ':');
  }

  lemma FullFormIsRead(groups: seq<nat>)
    requires IsAddress(groups)
    ensures ParseHost(Join(HexAll(groups), ":")) == Some(groups)
  {
    var s := Join(HexAll(groups), ":");
    SideColons(groups, s);
    SideIsSplit(groups, s);
    NoDoubleColon(s);
    GroupsAreRead(groups, true);
  }

  lemma CutAtDoubleColon(s: string, left: string, right: string)
    requires s == left + "::" + right
    ensures s[..|left|] == left && s[|left| + 2..] == right
  {
  }

  lemma SidesAreCut(left: seq<nat>, l: string, r: string, s: string)
    requires l == Join(HexAll(left), ":") && s == l + "::" + r
    ensures IndexOf(s, "::", 0) == |l| && |l| + 2 <= |s| && s[..|l|] == l && s[|l| + 2..] == r
  {
    SideColons(left, l);
    FirstDoubleColon(l, r);
    CutAtDoubleColon(s, l, r);
  }

  lemma ParseAround(s: string, l: string, r: string, left: seq<nat>, right: seq<nat>, address: seq<nat>)
    requires IndexOf(s, "::", 0) == |l| && |l| + 2 <= |s| && s[..|l|] == l && s[|l| + 2..] == r
    requires PiecesOf(l, false) == Some(left) && PiecesOf(r, true) == Some(right)
    requires |left| + |right| <= 7 && address == Around(left, right)
    ensures ParseHost(s) == Some(address)
  {
  }

  lemma CompressedFormIsRead(left: seq<nat>, right: seq<nat>, l: string, r: string, s: string, address: seq<nat>)
    requires |left| + |right| <= 7 && address == Around(left, right)
    requires forall k | 0 <= k < |left| :: left[k] < 0x1_0000
    requires forall k | 0 <= k < |right| :: right[k] < 0x1_0000
    requires l == Join(HexAll(left), ":") && r == Join(HexAll(right), ":") && s == l + "::" + r
    ensures ParseHost(s) == Some(address)
  {
    SideIsRead(left, l, false);
    SideIsRead(right, r, true);
    SidesAreCut(left, l, r, s);
    ParseAround(s, l, r, left, right, address);
  }

  // The groups on either side of the run, and the run itself.
  lemma AroundTheRun(groups: seq<nat>, start: nat, n: nat)
    requires |groups| == 8 && start + n <= 8 && n > 0 && n == Run(groups, start)
    ensures groups == Around(groups[..start], groups[start + n..])
  {
    assert 8 - start - |groups[start + n..]| == n;
  }

  // Canonical text is read back as the address it was written for.
  lemma SerializedIsRead(groups: seq<nat>)
    requires IsAddress(groups)
    ensures ParseHost(Serialize(groups)) == Some(groups)
  {
    var start := LongestRun(groups, 0);
    var n := Run(groups, start);
    if n < 2 {
      FullFormIsRead(groups);
    } else {
      AroundTheRun(groups, start, n);
      var left, right := groups[..start], groups[start + n..];
      CompressedFormIsRead(left, right, Join(HexAll(left), ":"), Join(HexAll(right), ":"), Serialize(groups), groups);
    }
  }
}
