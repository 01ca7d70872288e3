// Small datatypes shared by every module.
module Basics {
  datatype Option<+T> = None | Some(value: T)

  function Max(x: int, y: int): (m: int)
    ensures m >= x && m >= y && (m == x || m == y)
  {
    if x >= y then x else y
  }

  function Min(x: int, y: int): (m: int)
    ensures m <= x && m <= y && (m == x || m == y)
  {
    if x <= y then x else y
  }

  lemma Reassociate<T>(a: seq<T>, b: seq<T>, c: seq<T>)
    ensures a + (b + c) == a + b + c
  {
  }

  // Cutting a concatenation back into its two parts.
  lemma Cut<T>(whole: seq<T>, a: seq<T>, b: seq<T>)
    requires whole == a + b
    ensures whole[..|a|] == a && whole[|a|..] == b
  {
  }

  lemma FrontAndLast<T>(s: seq<T>, n: nat)
    requires n < |s|
    ensures s[..n + 1] == s[..n] + [s[n]]
    ensures s[..|s|] == s
  {
  }

  lemma FirstAndRest<T>(a: seq<T>, n: nat, b: seq<T>)
    requires n <= |a|
    ensures a == a[..n] + a[n..] && a + b == a[..n] + (a[n..] + b)
  {
  }

  // A sequence without the element at `d`.
  lemma WithoutAt<T>(s: seq<T>, d: nat, r: seq<T>)
    requires d < |s| && r == s[..d] + s[d + 1..]
    ensures |r| == |s| - 1
    ensures forall i | 0 <= i < |r| :: r[i] == s[if i < d then i else i + 1]
  {
  }
}
