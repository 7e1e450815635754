/** The integer types of C, signed and unsigned, of any width: what is kept of a number, and the number it is. */
module Integers {
  import opened Powers

  // What an unsigned type of `width` bits keeps of a number.
  function Modulo(width: nat, x: int): (r: nat)
    ensures 0 <= x < Pow2(width) ==> r == x
    ensures r < Pow2(width)
  {
    DivModFacts(x, Pow2(width));
    if 0 <= x < Pow2(width) then ModSmall(x, Pow2(width)); x else x % Pow2(width)
  }

  /** The number a pattern of `width` bits is in the signed type. */
  function AsSigned(width: nat, x: nat): int
    requires width >= 1
  {
    var half: int := Pow2(width - 1);
    if x < half then x else x - 2 * half
  }

  predicate IsSigned(width: nat, x: int)
    requires width >= 1
  {
    -(Pow2(width - 1) as int) <= x < Pow2(width - 1)
  }

  function Absolute(x: int): nat { if x < 0 then 0 - x else x }

  /** A signed value as its magnitude, by negating the unsigned copy. */
  function MagnitudeBits(width: nat, value: int): nat
    requires width >= 1
  {
    var copy: int := Modulo(width, value);
    if value < 0 then Modulo(width, 0 - copy) else copy
  }

  lemma MagnitudeIsAbsolute(width: nat, value: int)
    requires width >= 1 && IsSigned(width, value)
    ensures MagnitudeBits(width, value) == Absolute(value) <= Pow2(width - 1)
  {
    var w := Pow2(width);
    assert w == 2 * Pow2(width - 1);
    if value < 0 {
      DivModUnique(value, w, -1, value + w);
      DivModUnique(0 - (value + w), w, -1, 0 - value);
    }
  }

  /** A pattern is read as the one number of the signed type that it is what is kept of. */
  lemma AsSignedIsOnly(width: nat, x: nat, n: int)
    requires width >= 1 && x < Pow2(width)
    ensures IsSigned(width, n) && Modulo(width, n) == x <==> n == AsSigned(width, x)
  {
    var w, half: int := Pow2(width), Pow2(width - 1);
    assert w == 2 * half;
    if x >= half { DivModUnique(x - w, w, -1, x); }
    if -half <= n < 0 { DivModUnique(n, w, -1, n + w); }
  }

  lemma NegatedPattern(width: nat, x: nat)
    requires width >= 1 && x <= Pow2(width - 1)
    ensures AsSigned(width, Modulo(width, 0 - x)) == 0 - x
    ensures AsSigned(width, Modulo(width, x)) == if x == Pow2(width - 1) then 0 - x else x
  {
    var w := Pow2(width);
    assert w == 2 * Pow2(width - 1);
    if x > 0 { DivModUnique(0 - x, w, -1, w - x); }
  }
}
