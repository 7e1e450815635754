/** The bitwise operators of C on unsigned numbers, defined bit by bit, and when they are arithmetic. */
module Bits {
  import opened Powers

  function And(a: nat, b: nat): nat {
    if a == 0 || b == 0 then 0
    else (if a % 2 == 1 && b % 2 == 1 then 1 else 0) + 2 * And(a / 2, b / 2)
  }

  function Or(a: nat, b: nat): nat {
    if a == 0 && b == 0 then 0
    else (if a % 2 == 1 || b % 2 == 1 then 1 else 0) + 2 * Or(a / 2, b / 2)
  }

  function Xor(a: nat, b: nat): nat {
    if a == 0 && b == 0 then 0
    else (if a % 2 != b % 2 then 1 else 0) + 2 * Xor(a / 2, b / 2)
  }

  /** `a >> k`. */
  function Shr(a: nat, k: nat): (r: nat)
    ensures r == a / Pow2(k)
  {
    DivBounds(a, Pow2(k));
    a / Pow2(k)
  }

  /** The mask of `k` low bits keeps the remainder modulo 2^k. */
  lemma {:induction false} AndMask(a: nat, k: nat)
    ensures And(a, Pow2(k) - 1) == a % Pow2(k)
  {
    var p := Pow2(k);
    if k > 0 && a > 0 {
      var half := Pow2(k - 1);
      AndMask(a / 2, k - 1);
      assert p == 2 * half && (p - 1) / 2 == half - 1 && (p - 1) % 2 == 1;
      DivDiv(a, 2, half);
    } else if a == 0 {
      ModSmall(0, p);
    }
  }

  lemma {:induction false} OrZero(a: nat)
    ensures Or(a, 0) == a && Or(0, a) == a
  {
    if a > 0 { OrZero(a / 2); }
  }

  /** Two operands with no bit in common are put together by adding them. */
  lemma {:induction false} OrSum(a: nat, b: nat, k: nat)
    requires a % Pow2(k) == 0 && b < Pow2(k)
    ensures Or(a, b) == a + b && Or(b, a) == a + b
  {
    if k == 0 {
      OrZero(a);
    } else {
      DivDiv(a, 2, Pow2(k - 1));
      assert a % 2 == 0 && a / 2 % Pow2(k - 1) == 0 by {
        assert a % Pow2(k) == a / 2 % Pow2(k - 1) * 2 + a % 2;
      }
      OrSum(a / 2, b / 2, k - 1);
    }
  }

  /** Setting the lowest bit. */
  lemma OrBit(a: nat, bit: nat)
    requires bit <= 1
    ensures Or(a, bit) == if bit == 1 && a % 2 == 0 then a + 1 else a
  {
    OrZero(a);
    OrZero(a / 2);
  }

  lemma {:induction false} BitwiseBelow(a: nat, b: nat, k: nat)
    requires a < Pow2(k) && b < Pow2(k)
    ensures And(a, b) < Pow2(k) && Or(a, b) < Pow2(k) && Xor(a, b) < Pow2(k)
  {
    if k > 0 { BitwiseBelow(a / 2, b / 2, k - 1); }
  }

  /** An operand below 2^k leaves the bits from there up alone. */
  lemma {:induction false} OrBelow(a: nat, b: nat, c: nat, k: nat)
    requires a % Pow2(k) == 0 && b < Pow2(k) && c < Pow2(k)
    ensures Or(a + b, c) == a + Or(b, c)
  {
    if k == 0 {
      OrZero(a);
    } else {
      var half := Pow2(k - 1);
      assert Pow2(k) == 2 * half;
      HalvesOfMultiple(a, b, half);
      OrBelow(a / 2, b / 2, c / 2, k - 1);
    }
  }

  lemma HalvesOfMultiple(a: nat, b: nat, half: nat)
    requires half > 0 && a % (2 * half) == 0
    ensures a % 2 == 0 && a / 2 % half == 0
    ensures (a + b) / 2 == a / 2 + b / 2 && (a + b) % 2 == b % 2
  {
    DivDiv(a, 2, half);
    DivModFacts(a / 2, half);
  }

  /** Setting a bit that is the top one of a number. */
  lemma {:induction false} OrTopBit(r: nat, k: nat)
    requires r < Pow2(k)
    ensures Or(Pow2(k) + r, Pow2(k)) == Pow2(k) + r
  {
    if k == 0 {
      OrZero(0);
    } else {
      OrTopBit(r / 2, k - 1);
    }
  }

  /** The operator works on high bits and low bits apart. */
  lemma {:induction false} OrHigh(a: nat, b: nat, c: nat, k: nat)
    requires b < Pow2(k)
    ensures Or(Shl(a, k) + b, Shl(c, k)) == Shl(Or(a, c), k) + b
  {
    if k == 0 {
      ShlByNothing(a);
      ShlByNothing(c);
      ShlByNothing(Or(a, c));
    } else {
      OrHigh(a, b / 2, c, k - 1);
      ShlStep(a, k);
      ShlStep(c, k);
      ShlStep(Or(a, c), k);
      OrStep(Shl(a, k - 1), b, Shl(c, k - 1));
    }
  }

  lemma ShlByNothing(a: nat)
    ensures Shl(a, 0) == a
  {
    assert Pow2(0) == 1;
  }

  lemma OrStep(a: nat, b: nat, c: nat)
    ensures Or(2 * a + b, 2 * c) == b % 2 + 2 * Or(a + b / 2, c)
  {
    OrZero(0);
  }

  lemma ShlStep(a: nat, k: nat)
    requires k > 0
    ensures Shl(a, k) == 2 * Shl(a, k - 1)
  {
    MulAssoc(2, a, Pow2(k - 1));
  }

  /** The bits in both and the bits in either add up to both numbers, and the bits in one only are what is between. */
  lemma {:induction false} BitsAddUp(a: nat, b: nat)
    ensures And(a, b) + Or(a, b) == a + b
    ensures Xor(a, b) == Or(a, b) - And(a, b)
  {
    if a > 0 || b > 0 {
      OrZero(a);
      OrZero(b);
      BitsAddUp(a / 2, b / 2);
      if a == 0 || b == 0 { XorZero(a + b); }
    }
  }

  // Whether the bit at a place is set.
  predicate IsSet(a: nat, k: nat) { Shr(a, k) % 2 == 1 }

  lemma BitStep(a: nat, k: nat)
    ensures IsSet(a, 0) <==> a % 2 == 1
    ensures k > 0 ==> (IsSet(a, k) <==> IsSet(a / 2, k - 1))
  {
    assert Pow2(0) == 1;
    if k > 0 { DivDiv(a, 2, Pow2(k - 1)); }
  }

  lemma NoBit(k: nat)
    ensures !IsSet(0, k)
  {
    DivModUnique(0, Pow2(k), 0, 0);
  }

  /** What the operators are, at every place. */
  lemma {:induction false} BitsOf(a: nat, b: nat, k: nat)
    ensures IsSet(And(a, b), k) <==> IsSet(a, k) && IsSet(b, k)
    ensures IsSet(Or(a, b), k) <==> IsSet(a, k) || IsSet(b, k)
    ensures IsSet(Xor(a, b), k) <==> IsSet(a, k) != IsSet(b, k)
  {
    BitStep(a, k);
    BitStep(b, k);
    BitStep(And(a, b), k);
    BitStep(Or(a, b), k);
    BitStep(Xor(a, b), k);
    NoBit(k);
    hide IsSet, Shr;
    if k > 0 { BitsOf(a / 2, b / 2, k - 1); }
  }

  /** The complement within `n` bits. */
  lemma {:induction false} BitsComplement(a: nat, n: nat, k: nat)
    requires a < Pow2(n) && k < n
    ensures IsSet(Pow2(n) - 1 - a, k) <==> !IsSet(a, k)
  {
    var half := Pow2(n - 1);
    assert Pow2(n) == 2 * half;
    BitStep(a, k);
    BitStep(2 * half - 1 - a, k);
    assert (2 * half - 1 - a) / 2 == half - 1 - a / 2;
    hide IsSet, Shr;
    if k > 0 { BitsComplement(a / 2, n - 1, k - 1); }
  }

  lemma {:induction false} XorZero(a: nat)
    ensures Xor(a, 0) == a && Xor(0, a) == a
  {
    if a > 0 { XorZero(a / 2); }
  }

  lemma {:induction false} XorUndone(a: nat, b: nat)
    ensures Xor(Xor(a, b), b) == a
  {
    if a > 0 || b > 0 {
      XorUndone(a / 2, b / 2);
      assert Xor(a, b) / 2 == Xor(a / 2, b / 2);
      assert Xor(a, b) % 2 == if a % 2 != b % 2 then 1 else 0;
    }
  }
}
