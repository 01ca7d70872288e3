// Decimal numerals: reading and printing them.
module Numerals {
  predicate IsDigit(c: char) { '0' <= c <= '9' }

  predicate AllDigits(s: string) { forall k | 0 <= k < |s| :: IsDigit(s[k]) }

  function DigitsValue(digits: string): nat
    requires AllDigits(digits)
  {
    if digits == "" then 0
    else
      var last := digits[|digits| - 1];
      assert IsDigit(last);
      10 * DigitsValue(digits[..|digits| - 1]) + (last - '0') as nat
  }

  function DigitsLength(s: string): (n: nat)
    ensures n <= |s| && AllDigits(s[..n]) && (n < |s| ==> !IsDigit(s[n]))
  {
    if s != "" && IsDigit(s[0]) then 1 + DigitsLength(s[1..]) else 0
  }

  lemma {:induction false} DigitsLengthIs(s: string, digits: string, rest: string)
    requires s == digits + rest && AllDigits(digits) && (rest == "" || !IsDigit(rest[0]))
    ensures DigitsLength(s) == |digits| && s[..|digits|] == digits && s[|digits|..] == rest
  {
    if digits != "" { DigitsLengthIs(s[1..], digits[1..], rest); }
  }

  function Decimal(n: nat): (digits: string)
    ensures digits != "" && AllDigits(digits)
  {
    (if n < 10 then "" else Decimal(n / 10)) + [(n % 10) as char + '0']
  }

  lemma {:induction false} DecimalIsRead(n: nat)
    ensures DigitsValue(Decimal(n)) == n
  {
    if n >= 10 { DecimalIsRead(n / 10); }
    var d := Decimal(n);
    assert d[..|d| - 1] == if n < 10 then "" else Decimal(n / 10);
  }

  function Pow10(k: nat): nat { if k == 0 then 1 else 10 * Pow10(k - 1) }

  lemma {:induction false} Pow10Grows(k: nat)
    requires k > 0
    ensures Pow10(k) >= 10
  {
    if k > 1 { Pow10Grows(k - 1); }
  }

  lemma {:induction false} DecimalLength(n: nat, k: nat)
    requires k > 0
    ensures |Decimal(n)| <= k <==> n < Pow10(k)
  {
    if n < 10 {
      assert Pow10(k) >= 10 by { Pow10Grows(k); }
    } else if k > 1 {
      DecimalLength(n / 10, k - 1);
    }
  }

  lemma {:induction false} DigitsValueBound(digits: string, k: nat)
    requires |digits| <= k && AllDigits(digits)
    ensures DigitsValue(digits) < Pow10(k)
    decreases k
  {
    if digits != "" {
      DigitsValueBound(digits[..|digits| - 1], k - 1);
    } else if k > 0 {
      DigitsValueBound(digits, k - 1);
    }
  }
}
