/** div.c: dividing an integer of two halves a bit at a time, at both widths the file has. */
module WideDivide {
  import opened Powers
  import opened Bits
  import opened Integers

  /** The dividend read from the top down to the bit at `at`. */
  lemma NextPrefix(top: nat, at: nat, width: nat)
    requires top < Pow2(width) && at < width
    ensures Shr(top, at) == 2 * Shr(top, at + 1) + And(Shr(top, at), 1)
    ensures And(Shr(top, at), 1) <= 1
    ensures Shr(top, at) < Pow2(width)
  {
    assert Pow2(1) == 2 && Pow2(at + 1) == Pow2(at) * 2;
    AndMask(Shr(top, at), 1);
    DivDiv(top, Pow2(at), 2);
    DivBounds(top, Pow2(at));
  }

  /** A quotient and a remainder of what has been read so far. */
  ghost predicate Divides(prefix: nat, bottom: nat, quotient: nat, rest: nat) {
    prefix == quotient * bottom + rest && rest < bottom
  }

  /** One turn takes the prefix apart again, one bit longer. */
  lemma PrefixDivides(prefix: nat, bit: nat, bottom: nat, quotient: nat, rest: nat)
    requires Divides(prefix, bottom, quotient, rest) && bit <= 1
    ensures rest <= prefix && quotient <= prefix
    ensures var grown := 2 * rest + bit;
      if grown >= bottom then Divides(2 * prefix + bit, bottom, 2 * quotient + 1, grown - bottom)
      else Divides(2 * prefix + bit, bottom, 2 * quotient, grown)
  {
    Distribute(2 * quotient, 1, bottom);
    MulAssoc(2, quotient, bottom);
    MulMono(1, bottom, quotient);
  }

  lemma OrEven(n: nat, bit: nat)
    requires bit <= 1
    ensures Or(n * 2, bit) == 2 * n + bit
  {
    OrBit(n * 2, bit);
  }

  /** One turn of the bit loop. The remainder shifted up loses nothing even where the divisor is in the top half of
    * its range, because it is at most what has been read of the dividend.
    */
  method DivideTurn(width: nat, bottom: nat, quotient: nat, rest: nat, bit: nat, ghost prefix: nat)
    returns (quotient': nat, rest': nat)
    requires Divides(prefix, bottom, quotient, rest) && bit <= 1 && 2 * prefix + bit < Pow2(width)
    ensures Divides(2 * prefix + bit, bottom, quotient', rest')
  {
    hide Pow2, And, Or, Divides, Modulo;
    PrefixDivides(prefix, bit, bottom, quotient, rest);
    OrEven(rest, bit);
    OrEven(quotient, 1);
    rest' := Or(Modulo(width, rest * 2), bit);
    quotient' := Modulo(width, quotient * 2);
    if rest' >= bottom {
      rest' := Modulo(width, rest' - bottom);
      quotient' := Or(quotient', 1);
    }
  }

  /** The bit loop. */
  method DivideBits(half: nat, top: nat, bottom: nat) returns (quotient: nat, rest: nat)
    requires 0 < bottom && top < Pow2(2 * half) && bottom < Pow2(2 * half)
    ensures top == quotient * bottom + rest && rest < bottom
  {
    hide Pow2, And, Shr;
    var width := 2 * half;
    var at: nat := width;
    quotient, rest := 0, 0;
    NothingRead(top, width);
    while at > 0
      invariant at <= width && Divides(Shr(top, at), bottom, quotient, rest)
    {
      at := at - 1;
      NextPrefix(top, at, width);
      quotient, rest := DivideTurn(width, bottom, quotient, rest, And(Shr(top, at), 1), Shr(top, at + 1));
    }
    AllRead(top);
  }

  lemma NothingRead(top: nat, width: nat)
    requires top < Pow2(width)
    ensures Shr(top, width) == 0
  {
    ModSmall(top, Pow2(width));
  }

  lemma AllRead(top: nat)
    ensures Shr(top, 0) == top
  {
    assert Pow2(0) == 1;
  }

  /** `divide` and `divide_long`: the machine's own division where both operands fit a half, and the loop. Only
    * a divisor of zero is shut out, as C shuts it out.
    */
  method Divide(half: nat, top: nat, bottom: nat) returns (quotient: nat, rest: nat)
    requires 0 < bottom && top < Pow2(2 * half) && bottom < Pow2(2 * half)
    ensures top == quotient * bottom + rest && rest < bottom
    ensures quotient == top / bottom && rest == top % bottom
  {
    DivBounds(top, bottom);
    DivModFacts(top, bottom);
    if Shr(top, half) == 0 && Shr(bottom, half) == 0 {
      return top / bottom, top % bottom;
    }
    quotient, rest := DivideBits(half, top, bottom);
    DivModUnique(top, bottom, quotient, rest);
  }

  /** The quotient truncated towards zero and the remainder that goes with it, section 6.5.5 of C17. */
  function TruncatedQuotient(top: int, bottom: int): int
    requires bottom != 0
  {
    DivBounds(Absolute(top), Absolute(bottom));
    var q: int := Absolute(top) / Absolute(bottom);
    if (top < 0) != (bottom < 0) then -q else q
  }

  function TruncatedRemainder(top: int, bottom: int): int
    requires bottom != 0
  {
    var r: int := Absolute(top) % Absolute(bottom);
    if top < 0 then -r else r
  }

  /** They are the only pair that adds up to the dividend with a remainder that is smaller than the divisor and on
    * the dividend's side of zero.
    */
  lemma TruncationIsTheOnlyOne(top: int, bottom: int, q: int, r: int)
    requires bottom != 0
    ensures (top == q * bottom + r && Absolute(r) < Absolute(bottom) && (top >= 0 ==> r >= 0) && (top <= 0 ==> r <= 0))
            <==> q == TruncatedQuotient(top, bottom) && r == TruncatedRemainder(top, bottom)
  {
    var a, b := Absolute(top), Absolute(bottom);
    DivModFacts(a, b);
    DivBounds(a, b);
    var q', r' := a / b, a % b;
    SignedProducts(q', b);
    if top == q * bottom + r && Absolute(r) < b && (top >= 0 ==> r >= 0) && (top <= 0 ==> r <= 0) {
      var q0 := if (top < 0) != (bottom < 0) then -q else q;
      SignedProducts(q, bottom);
      SignedProducts(q0, b);
      DivModUnique(a, b, q0, Absolute(r));
    }
  }

  lemma SignedProducts(x: int, y: int)
    ensures (-x) * y == -(x * y) && x * (-y) == -(x * y) && (-x) * (-y) == x * y
  {
  }

  /** `__divti3` and `__divdi3`. The one quotient the type does not hold, the most negative value over minus one,
    * wraps round to the most negative value.
    */
  method DivideSigned(half: nat, top: int, bottom: int) returns (quotient: int)
    requires half >= 1 && bottom != 0 && IsSigned(2 * half, top) && IsSigned(2 * half, bottom)
    ensures quotient == TruncatedQuotient(top, bottom)
            <==> !(top == -(Pow2(2 * half - 1) as int) && bottom == -1)
    ensures top == -(Pow2(2 * half - 1) as int) && bottom == -1 ==> quotient == top
  {
    var width := 2 * half;
    MagnitudeIsAbsolute(width, top);
    MagnitudeIsAbsolute(width, bottom);
    assert Pow2(width) == 2 * Pow2(width - 1);
    var whole, rest := Divide(half, MagnitudeBits(width, top), MagnitudeBits(width, bottom));
    QuotientBound(Absolute(top), Absolute(bottom), whole, Pow2(width - 1));
    NegatedPattern(width, whole);
    quotient := AsSigned(width, if (top < 0) != (bottom < 0) then Modulo(width, 0 - whole as int) else whole);
  }

  lemma QuotientBound(a: nat, b: nat, q: nat, limit: nat)
    requires 0 < b && q == a / b && a <= limit && 0 < limit
    ensures q <= limit
    ensures q == limit ==> a == limit && b == 1
  {
    DivBounds(a, b);
    if q == limit && b >= 2 { MulMono(2, b, q); }
  }

  /** `__modti3` and `__moddi3`. */
  method RemainderSigned(half: nat, top: int, bottom: int) returns (remainder: int)
    requires half >= 1 && bottom != 0 && IsSigned(2 * half, top) && IsSigned(2 * half, bottom)
    ensures remainder == TruncatedRemainder(top, bottom)
  {
    var width := 2 * half;
    MagnitudeIsAbsolute(width, top);
    MagnitudeIsAbsolute(width, bottom);
    assert Pow2(width) == 2 * Pow2(width - 1);
    var whole, rest := Divide(half, MagnitudeBits(width, top), MagnitudeBits(width, bottom));
    NegatedPattern(width, rest);
    remainder := AsSigned(width, if top < 0 then Modulo(width, 0 - rest as int) else rest);
  }

  /** `__divmodti4` and `__divmoddi4`, which put the dividend back together wherever the quotient fits. */
  method DivideWithRemainder(half: nat, top: int, bottom: int) returns (quotient: int, remainder: int)
    requires half >= 1 && bottom != 0 && IsSigned(2 * half, top) && IsSigned(2 * half, bottom)
    ensures !(top == -(Pow2(2 * half - 1) as int) && bottom == -1) ==> top == quotient * bottom + remainder
    ensures Absolute(remainder) < Absolute(bottom) && (remainder != 0 ==> (remainder < 0 <==> top < 0))
  {
    remainder := RemainderSigned(half, top, bottom);
    quotient := DivideSigned(half, top, bottom);
    TruncationIsTheOnlyOne(top, bottom, TruncatedQuotient(top, bottom), TruncatedRemainder(top, bottom));
  }
}
