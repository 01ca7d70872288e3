// Shifts and bitwise operators on unsigned integers, as ECMA-262 defines them for
// BigInt and, with 32-bit operands, for Number.
module Bits {
  // x >> k, x << k
  function Shr(x: nat, k: nat): nat { if k == 0 then x else Shr(x / 2, k - 1) }

  function Shl(x: nat, k: nat): nat { if k == 0 then x else 2 * Shl(x, k - 1) }

  // x & y, x ^ y, x | y
  function And(x: nat, y: nat): nat {
    if x == 0 || y == 0 then 0 else 2 * And(x / 2, y / 2) + if x % 2 == 1 && y % 2 == 1 then 1 else 0
  }

  function Xor(x: nat, y: nat): nat {
    if x == 0 then y else if y == 0 then x else 2 * Xor(x / 2, y / 2) + (x + y) % 2
  }

  function Or(x: nat, y: nat): nat {
    if x == 0 then y else if y == 0 then x else 2 * Or(x / 2, y / 2) + if x % 2 == 1 || y % 2 == 1 then 1 else 0
  }

  function Pow2(k: nat): nat { Shl(1, k) }

  const TWO_32: nat := 0x1_0000_0000

  // (x << n) >>> 0 on 32-bit operands: the shift count is taken modulo 32.
  function ShiftLeft32(x: nat, n: nat): nat { Shl(x, n % 32) % TWO_32 }

  // The bit of weight 2^i.
  function Bit(x: nat, i: nat): nat { Shr(x, i) % 2 }

  // The leading `prefix` bits of two `width`-bit numbers are the same.
  predicate SamePrefix(x: nat, y: nat, prefix: nat, width: nat)
    requires prefix <= width
  {
    forall i | width - prefix <= i < width :: Bit(x, i) == Bit(y, i)
  }

  // The `prefix` ones that lead a `width`-bit number.
  function PrefixMask(prefix: nat, width: nat): nat
    requires prefix <= width
  {
    ShlPositive(1, prefix);
    if prefix == 0 then 0 else Shl(Pow2(prefix) - 1, width - prefix)
  }

  lemma {:induction false} ShlPositive(x: nat, k: nat)
    requires x > 0
    ensures Shl(x, k) > 0
  {
    if k > 0 { ShlPositive(x, k - 1); }
  }

  lemma {:induction false} ShlZero(k: nat)
    ensures Shl(0, k) == 0
  {
    if k > 0 { ShlZero(k - 1); }
  }

  lemma {:induction false} ShlCancels(a: nat, b: nat, k: nat)
    ensures Shl(a, k) == Shl(b, k) <==> a == b
  {
    if k > 0 { ShlCancels(a, b, k - 1); }
  }

  lemma {:induction false} ShrNext(x: nat, k: nat)
    ensures Shr(x, k + 1) == Shr(x, k) / 2
  {
    if k > 0 { ShrNext(x / 2, k - 1); }
  }

  lemma {:induction false} ShrAdd(x: nat, j: nat, k: nat)
    ensures Shr(Shr(x, j), k) == Shr(x, j + k)
  {
    if j > 0 { ShrAdd(x / 2, j - 1, k); }
  }

  lemma {:induction false} ShrBound(x: nat, p: nat, k: nat)
    requires x < Pow2(p + k)
    ensures Shr(x, k) < Pow2(p)
  {
    if k > 0 { ShrBound(x / 2, p, k - 1); }
  }

  // The k low bits are below 2^k, and the rest is what the shift keeps.
  lemma {:induction false} ShlShr(x: nat, k: nat)
    ensures Shl(Shr(x, k), k) <= x < Shl(Shr(x, k), k) + Pow2(k)
  {
    if k > 0 { ShlShr(x / 2, k - 1); }
  }

  lemma {:induction false} ShrOfShl(x: nat, low: nat, k: nat)
    requires low < Pow2(k)
    ensures Shr(Shl(x, k) + low, k) == x
  {
    if k > 0 {
      ShrOfShl(x, low / 2, k - 1);
      assert (Shl(x, k) + low) / 2 == Shl(x, k - 1) + low / 2;
    }
  }

  // Filling the low bits that a shift cleared is adding.
  lemma {:induction false} OrLow(x: nat, low: nat, k: nat)
    requires low < Pow2(k)
    ensures Or(Shl(x, k), low) == Shl(x, k) + low
  {
    if k > 0 {
      OrLow(x, low / 2, k - 1);
      var half := Shl(x, k - 1);
      assert 2 * half / 2 == half && 2 * half % 2 == 0;
    }
  }

  // The p low bits, and the rest.
  lemma {:induction false} AndLow(x: nat, p: nat)
    ensures Pow2(p) > 0 && And(x, Pow2(p) - 1) < Pow2(p)
    ensures Shl(Shr(x, p), p) + And(x, Pow2(p) - 1) == x
  {
    ShlPositive(1, p);
    if p > 0 {
      AndLow(x / 2, p - 1);
      AndOdd(x, Pow2(p - 1) - 1);
    }
  }

  // A mask of p ones above k zeros clears exactly the k low bits.
  lemma {:induction false} AndOnes(x: nat, p: nat, k: nat)
    requires x < Pow2(p + k)
    ensures Pow2(p) > 0 && And(x, Shl(Pow2(p) - 1, k)) == Shl(Shr(x, k), k)
    decreases k, p
  {
    ShlPositive(1, p);
    if k > 0 {
      AndOnes(x / 2, p, k - 1);
      AndEven(x, Shl(Pow2(p) - 1, k - 1));
    } else if p > 0 {
      AndOnes(x / 2, p - 1, 0);
      AndOdd(x, Pow2(p - 1) - 1);
    }
  }

  lemma AndEven(x: nat, mask: nat)
    ensures And(x, 2 * mask) == 2 * And(x / 2, mask)
  {
    assert 2 * mask / 2 == mask;
  }

  lemma AndOdd(x: nat, mask: nat)
    ensures And(x, 2 * mask + 1) == 2 * And(x / 2, mask) + x % 2
  {
    assert (2 * mask + 1) / 2 == mask;
  }

  lemma AndPrefixMask(x: nat, prefix: nat, width: nat)
    requires prefix <= width && x < Pow2(width)
    ensures And(x, PrefixMask(prefix, width)) == Shl(Shr(x, width - prefix), width - prefix)
  {
    AndOnes(x, prefix, width - prefix);
    ShlZero(width);
  }

  lemma {:induction false} XorShift(x: nat, y: nat, k: nat)
    ensures Shr(Xor(x, y), k) == Xor(Shr(x, k), Shr(y, k))
  {
    if k > 0 {
      XorShift(x / 2, y / 2, k - 1);
      XorHalf(x, y);
    }
  }

  lemma XorHalf(x: nat, y: nat)
    ensures Xor(x, y) / 2 == Xor(x / 2, y / 2)
  {
    if x > 0 && y > 0 { HalfOf(Xor(x / 2, y / 2), (x + y) % 2); }
  }

  lemma HalfOf(half: nat, bit: nat)
    requires bit < 2
    ensures (2 * half + bit) / 2 == half
  {
  }

  lemma {:induction false} XorIsZero(x: nat, y: nat)
    ensures Xor(x, y) == 0 <==> x == y
  {
    if x > 0 && y > 0 { XorIsZero(x / 2, y / 2); }
  }

  lemma {:induction false} XorBound(x: nat, y: nat, k: nat)
    requires x < Pow2(k) && y < Pow2(k)
    ensures Xor(x, y) < Pow2(k)
  {
    if k > 0 && x > 0 && y > 0 { XorBound(x / 2, y / 2, k - 1); }
  }

  // Numbers that agree from bit k up are equal once those bits are shifted down.
  lemma {:induction false} ShiftedAreEqualExactly(x: nat, y: nat, k: nat, width: nat)
    requires k <= width && x < Pow2(width) && y < Pow2(width)
    ensures Shr(x, k) == Shr(y, k) <==> SamePrefix(x, y, width - k, width)
    decreases width - k
  {
    if k == width {
      ShrBound(x, 0, k);
      ShrBound(y, 0, k);
    } else {
      ShiftedAreEqualExactly(x, y, k + 1, width);
      ShrNext(x, k);
      ShrNext(y, k);
      OneMoreBit(x, y, k, width);
      HalvesAndBits(Shr(x, k), Shr(y, k));
    }
  }

  lemma HalvesAndBits(a: nat, b: nat)
    ensures a == b <==> a / 2 == b / 2 && a % 2 == b % 2
  {
  }

  lemma OneMoreBit(x: nat, y: nat, k: nat, width: nat)
    requires k < width
    ensures SamePrefix(x, y, width - k, width) <==> SamePrefix(x, y, width - (k + 1), width) && Bit(x, k) == Bit(y, k)
  {
  }

  // Masking two numbers gives the same result exactly when their prefixes agree.
  lemma MaskedAreEqualExactly(x: nat, y: nat, prefix: nat, width: nat)
    requires prefix <= width && x < Pow2(width) && y < Pow2(width)
    ensures And(x, PrefixMask(prefix, width)) == And(y, PrefixMask(prefix, width)) <==> SamePrefix(x, y, prefix, width)
  {
    var k := width - prefix;
    AndPrefixMask(x, prefix, width);
    AndPrefixMask(y, prefix, width);
    ShiftedAreEqualExactly(x, y, k, width);
    ShlCancels(Shr(x, k), Shr(y, k), k);
  }

  // (x ^ y) & mask is zero exactly when the prefixes agree.
  lemma MaskedDifferenceIsZeroExactly(x: nat, y: nat, prefix: nat, width: nat)
    requires prefix <= width && x < Pow2(width) && y < Pow2(width)
    ensures And(Xor(x, y), PrefixMask(prefix, width)) == 0 <==> SamePrefix(x, y, prefix, width)
  {
    var k := width - prefix;
    XorBound(x, y, width);
    AndPrefixMask(Xor(x, y), prefix, width);
    XorShift(x, y, k);
    XorIsZero(Shr(x, k), Shr(y, k));
    ShiftedAreEqualExactly(x, y, k, width);
    ShlZero(k);
    ShlCancels(Shr(Xor(x, y), k), 0, k);
  }

  lemma {:induction false} ShlOnes(p: nat, k: nat)
    ensures Pow2(p) > 0 && Shl(Pow2(p) - 1, k) == Pow2(p + k) - Pow2(k)
  {
    ShlPositive(1, p);
    if k > 0 { ShlOnes(p, k - 1); }
  }

  lemma {:induction false} Pow2Above32(k: nat)
    ensures Pow2(32 + k) == TWO_32 * Pow2(k)
  {
    if k > 0 {
      Pow2Above32(k - 1);
      assert 32 + k - 1 == 32 + (k - 1);
    } else {
      TwoToThe32();
    }
  }

  lemma TwoToThe32()
    ensures Pow2(32) == TWO_32
  {
    assert Pow2(8) == 256;
    assert Pow2(16) == 65536;
    assert Pow2(24) == 0x100_0000;
  }

  // 0xffffffff << k keeps the 32 - k leading ones of a 32-bit number.
  lemma ShiftedOnes(prefix: nat)
    requires 0 < prefix <= 32
    ensures ShiftLeft32(TWO_32 - 1, 32 - prefix) == PrefixMask(prefix, 32)
  {
    var k := 32 - prefix;
    OnesShifted(k);
    MaskIs(prefix, k);
    Wraps(Pow2(k));
  }

  lemma OnesShifted(k: nat)
    ensures Shl(TWO_32 - 1, k) == TWO_32 * Pow2(k) - Pow2(k)
  {
    TwoToThe32();
    ShlOnes(32, k);
    Pow2Above32(k);
  }

  lemma MaskIs(prefix: nat, k: nat)
    requires 0 < prefix && prefix + k == 32
    ensures PrefixMask(prefix, 32) == TWO_32 - Pow2(k) && 0 < Pow2(k) <= TWO_32
  {
    TwoToThe32();
    ShlOnes(prefix, k);
    ShlPositive(1, k);
    ShlPositive(1, prefix);
    ShlPositive(Pow2(prefix), k);
  }

  lemma Wraps(p: nat)
    requires 0 < p <= TWO_32
    ensures (TWO_32 * p - p) % TWO_32 == TWO_32 - p
  {
    assert TWO_32 * p - p == TWO_32 * (p - 1) + (TWO_32 - p);
  }
}
