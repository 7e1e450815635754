/** What IEEE 754 asks of the four operations and the comparison, on patterns, with the choices the standard
  * leaves open made the way libgcc makes them: a not a number comes back quieted, the left one where both
  * are, and an operation with no answer gives the quiet one with an empty payload.
  */
module Ieee {
  import opened Powers
  import opened Bits
  import opened Rounding
  import opened Packing

  predicate IsFinite(f: Layout, p: nat) { !IsNan(f, p) && !IsInfinite(f, p) }

  predicate IsZero(f: Layout, p: nat) { Magnitude(f, p) == 0 }

  ghost function MagnitudeValue(f: Layout, p: nat): nat { Value(f, Magnitude(f, p)) }

  /** The number a pattern stands for, in units. */
  ghost function SignedValue(f: Layout, p: nat): int {
    var v: int := MagnitudeValue(f, p);
    if Negative(f, p) then -v else v
  }

  /** The pattern of `num / den` units rounded, with the sign of the exact value and a given sign for zero. */
  ghost predicate RoundsTo(f: Layout, num: int, den: nat, zeroIsNegative: bool, result: nat) {
    && IsPattern(f, result)
    && Nearest(f, if num < 0 then -num else num, den, Magnitude(f, result))
    && (Negative(f, result) <==> if num == 0 then zeroIsNegative else num < 0)
  }

  // What has no rounding in it is said of the three fields of the result, and of nothing else.

  /** A pattern that is not a number with the top bit of its fraction set and the rest of it as it was. */
  ghost predicate IsQuieted(f: Layout, p: nat, result: nat) {
    var half := Pow2(f.fraction - 1);
    && IsPattern(f, result) && IsNan(f, result)
    && (Negative(f, result) <==> Negative(f, p))
    && FractionOf(f, result) >= half && FractionOf(f, result) % half == FractionOf(f, p) % half
  }

  /** The positive one that is not a number, with the top bit of the fraction set and no other. */
  ghost predicate IsEmptyNan(f: Layout, result: nat) {
    && IsPattern(f, result) && IsNan(f, result)
    && !Negative(f, result) && FractionOf(f, result) == Pow2(f.fraction - 1)
  }

  ghost predicate IsInfinityOf(f: Layout, negative: bool, result: nat) {
    IsPattern(f, result) && IsInfinite(f, result) && (Negative(f, result) <==> negative)
  }

  ghost predicate IsZeroOf(f: Layout, negative: bool, result: nat) {
    IsPattern(f, result) && IsZero(f, result) && (Negative(f, result) <==> negative)
  }

  /** Addition, sections 5.4.1, 6.1, 6.2 and 6.3 of IEEE 754-2019. */
  ghost predicate IsSum(f: Layout, left: nat, right: nat, result: nat) {
    if IsNan(f, left) then IsQuieted(f, left, result)
    else if IsNan(f, right) then IsQuieted(f, right, result)
    else if IsInfinite(f, left) && IsInfinite(f, right) && Negative(f, left) != Negative(f, right) then
      IsEmptyNan(f, result)
    else if IsInfinite(f, left) then IsInfinityOf(f, Negative(f, left), result)
    else if IsInfinite(f, right) then IsInfinityOf(f, Negative(f, right), result)
    else RoundsTo(f, SignedValue(f, left) + SignedValue(f, right), 1, Negative(f, left) && Negative(f, right), result)
  }

  /** Subtraction, where a right operand that is not a number comes back with the sign it came with. */
  ghost predicate IsDifference(f: Layout, left: nat, right: nat, result: nat) {
    if IsNan(f, left) then IsQuieted(f, left, result)
    else if IsNan(f, right) then IsQuieted(f, right, result)
    else if IsInfinite(f, left) && IsInfinite(f, right) && Negative(f, left) == Negative(f, right) then
      IsEmptyNan(f, result)
    else if IsInfinite(f, left) then IsInfinityOf(f, Negative(f, left), result)
    else if IsInfinite(f, right) then IsInfinityOf(f, !Negative(f, right), result)
    else RoundsTo(f, SignedValue(f, left) - SignedValue(f, right), 1, Negative(f, left) && !Negative(f, right), result)
  }

  /** The sign and the magnitude a product or a quotient has. */
  ghost predicate HasSignAndNearest(f: Layout, negative: bool, num: nat, den: nat, result: nat) {
    && IsPattern(f, result)
    && (Negative(f, result) <==> negative)
    && Nearest(f, num, den, Magnitude(f, result))
  }

  /** Multiplication. Two values in units multiply into units of a unit, of which `One` make a unit. */
  ghost predicate IsProduct(f: Layout, left: nat, right: nat, result: nat) {
    var negative := Negative(f, left) != Negative(f, right);
    if IsNan(f, left) then IsQuieted(f, left, result)
    else if IsNan(f, right) then IsQuieted(f, right, result)
    else if IsInfinite(f, left) || IsInfinite(f, right) then
      if IsZero(f, left) || IsZero(f, right) then IsEmptyNan(f, result) else IsInfinityOf(f, negative, result)
    else HasSignAndNearest(f, negative, Times(MagnitudeValue(f, left), MagnitudeValue(f, right)), f.One(), result)
  }

  /** Division. */
  ghost predicate IsQuotient(f: Layout, left: nat, right: nat, result: nat) {
    var negative := Negative(f, left) != Negative(f, right);
    if IsNan(f, left) then IsQuieted(f, left, result)
    else if IsNan(f, right) then IsQuieted(f, right, result)
    else if IsInfinite(f, left) then
      if IsInfinite(f, right) then IsEmptyNan(f, result) else IsInfinityOf(f, negative, result)
    else if IsInfinite(f, right) then IsZeroOf(f, negative, result)
    else if IsZero(f, right) then
      if IsZero(f, left) then IsEmptyNan(f, result) else IsInfinityOf(f, negative, result)
    else HasSignAndNearest(f, negative, Times(MagnitudeValue(f, left), f.One()), MagnitudeValue(f, right), result)
  }

  /** The pattern with its sign bit flipped, which is the negation of every value. */
  function Flipped(f: Layout, p: nat): nat {
    if Negative(f, p) then p - f.SignBit() else p + f.SignBit()
  }

  lemma FlippedSign(f: Layout, p: nat)
    requires IsPattern(f, p)
    ensures IsPattern(f, Flipped(f, p)) && Magnitude(f, Flipped(f, p)) == Magnitude(f, p)
    ensures Negative(f, Flipped(f, p)) <==> !Negative(f, p)
    ensures IsNan(f, Flipped(f, p)) <==> IsNan(f, p)
    ensures IsInfinite(f, Flipped(f, p)) <==> IsInfinite(f, p)
  {
    PatternIsSignAndMagnitude(f, p);
    SignAndMagnitude(f, if Negative(f, p) then 0 else f.SignBit(), Magnitude(f, p));
    Classes(f, p);
    Classes(f, Flipped(f, p));
  }

  function SignedBy(f: Layout, negative: bool, magnitude: nat): nat {
    (if negative then f.SignBit() else 0) + magnitude
  }

  /** A sign in front of the magnitude of an infinity or of a zero is that infinity or that zero. */
  lemma SignedSpecials(f: Layout, negative: bool)
    ensures IsInfinityOf(f, negative, SignedBy(f, negative, f.Infinity()))
    ensures IsZeroOf(f, negative, SignedBy(f, negative, 0))
    ensures IsPattern(f, SignedBy(f, negative, f.Infinity())) && IsPattern(f, SignedBy(f, negative, 0))
  {
    LayoutFacts(f);
    var sign := if negative then f.SignBit() else 0;
    SignAndMagnitude(f, sign, f.Infinity());
    SignAndMagnitude(f, sign, 0);
    Classes(f, sign + f.Infinity());
  }

  /** A fraction with its top bit set. */
  function QuietFraction(f: Layout, fraction: nat): nat {
    if fraction < Pow2(f.fraction - 1) then fraction + Pow2(f.fraction - 1) else fraction
  }

  lemma OrQuiet(f: Layout, fraction: nat)
    requires fraction < f.Implicit()
    ensures Or(fraction, Pow2(f.fraction - 1)) == QuietFraction(f, fraction) < f.Implicit()
    ensures QuietFraction(f, fraction) >= Pow2(f.fraction - 1) > 0
    ensures QuietFraction(f, fraction) % Pow2(f.fraction - 1) == fraction % Pow2(f.fraction - 1)
  {
    var half := Pow2(f.fraction - 1);
    assert f.Implicit() == 2 * half;
    if fraction < half {
      DivModUnique(fraction + half, half, 1, fraction);
      ModSmall(fraction, half);
      DivModUnique(half, half, 1, 0);
      OrSum(half, fraction, f.fraction - 1);
    } else {
      OrTopBit(fraction - half, f.fraction - 1);
    }
  }

  /** Quieting a pattern quiets its fraction and leaves the rest. */
  lemma QuietPattern(f: Layout, p: nat)
    requires IsPattern(f, p) && IsNan(f, p)
    ensures Quiet(f, p) == SignOf(f, p) + f.Infinity() + QuietFraction(f, FractionOf(f, p))
  {
    var fraction := FractionOf(f, p);
    PatternIsSignAndMagnitude(f, p);
    UnpackFields(f, p);
    OrQuiet(f, fraction);
    assert p == SignOf(f, p) + f.Infinity() + fraction;
    SignIsMultiple(f, SignOf(f, p));
    Pow2Mono(f.fraction - 1, f.fraction);
    OrBelow(SignOf(f, p) + f.Infinity(), fraction, Pow2(f.fraction - 1), f.fraction);
  }

  lemma SignIsMultiple(f: Layout, sign: nat)
    requires sign == 0 || sign == f.SignBit()
    ensures (sign + f.Infinity()) % f.Implicit() == 0
  {
    Pow2Add(f.width, f.fraction);
    var k := if sign == 0 then f.Top() else Pow2(f.width) + f.Top();
    Distribute(Pow2(f.width), f.Top(), f.Implicit());
    DivModUnique(sign + f.Infinity(), f.Implicit(), k, 0);
  }

  /** A sign, the top exponent and a fraction, taken apart. */
  lemma NanFields(f: Layout, sign: nat, fraction: nat)
    requires sign == 0 || sign == f.SignBit()
    requires 0 < fraction < f.Implicit()
    ensures var p := sign + f.Infinity() + fraction;
      && IsPattern(f, p) && IsNan(f, p) && FractionOf(f, p) == fraction && (Negative(f, p) <==> sign != 0)
  {
    LayoutFacts(f);
    SignAndMagnitude(f, sign, f.Infinity() + fraction);
    Classes(f, sign + f.Infinity() + fraction);
    DivModUnique(f.Infinity() + fraction, f.Implicit(), f.Top(), fraction);
  }

  lemma QuietIsQuieted(f: Layout, p: nat)
    requires IsPattern(f, p) && IsNan(f, p)
    ensures IsQuieted(f, p, Quiet(f, p))
  {
    QuietPattern(f, p);
    OrQuiet(f, FractionOf(f, p));
    NanFields(f, SignOf(f, p), QuietFraction(f, FractionOf(f, p)));
  }

  lemma EmptyNanIsQuiet(f: Layout)
    ensures IsEmptyNan(f, EmptyNan(f))
  {
    hide Pow2, Magnitude, ExponentOf, FractionOf, IsNan;
    Pow2Next(f.fraction - 1);
    NanFields(f, 0, Pow2(f.fraction - 1));
  }

  /** The special results an operation may hand back for `p`. */
  lemma SpecialResults(f: Layout, p: nat)
    requires IsPattern(f, p)
    ensures IsNan(f, p) ==> IsQuieted(f, p, Quiet(f, p)) && IsPattern(f, Quiet(f, p))
    ensures IsEmptyNan(f, EmptyNan(f)) && IsPattern(f, EmptyNan(f))
  {
    if IsNan(f, p) { QuietIsQuieted(f, p); }
    EmptyNanIsQuiet(f);
  }

  /** A rounded magnitude is never past the infinity. */
  lemma NearestIsNumber(f: Layout, num: nat, den: nat, result: nat)
    requires Nearest(f, num, den, Magnitude(f, result))
    ensures !IsNan(f, result)
  {
    Classes(f, result);
  }

  lemma ClassesApart(f: Layout, p: nat)
    ensures IsInfinite(f, p) ==> !IsNan(f, p)
    ensures IsZero(f, p) ==> IsFinite(f, p)
  {
    LayoutFacts(f);
    Classes(f, p);
    DivModFacts(0, f.Implicit());
  }

  /** The operations answer something that is not a number exactly where an operand is not one, and where there is
    * no answer: an infinity less itself, none of an infinity, nothing over nothing and an infinity over another
    * (section 7.2 of IEEE 754-2019).
    */
  lemma SumIsInvalid(f: Layout, left: nat, right: nat, result: nat)
    requires IsSum(f, left, right, result)
    ensures IsNan(f, result)
            <==> IsNan(f, left) || IsNan(f, right)
                 || (IsInfinite(f, left) && IsInfinite(f, right) && Negative(f, left) != Negative(f, right))
  {
    hide Nearest, Value;
    ClassesApart(f, result);
    if IsFinite(f, left) && IsFinite(f, right) {
      var sum := SignedValue(f, left) + SignedValue(f, right);
      NearestIsNumber(f, if sum < 0 then -sum else sum, 1, result);
    }
  }

  lemma DifferenceIsInvalid(f: Layout, left: nat, right: nat, result: nat)
    requires IsDifference(f, left, right, result)
    ensures IsNan(f, result)
            <==> IsNan(f, left) || IsNan(f, right)
                 || (IsInfinite(f, left) && IsInfinite(f, right) && Negative(f, left) == Negative(f, right))
  {
    hide Nearest, Value;
    ClassesApart(f, result);
    if IsFinite(f, left) && IsFinite(f, right) {
      var difference := SignedValue(f, left) - SignedValue(f, right);
      NearestIsNumber(f, if difference < 0 then -difference else difference, 1, result);
    }
  }

  lemma ProductIsInvalid(f: Layout, left: nat, right: nat, result: nat)
    requires IsProduct(f, left, right, result)
    ensures IsNan(f, result)
            <==> IsNan(f, left) || IsNan(f, right)
                 || (IsInfinite(f, left) && IsZero(f, right)) || (IsZero(f, left) && IsInfinite(f, right))
  {
    hide Nearest, Value;
    ClassesApart(f, result);
    ClassesApart(f, left);
    ClassesApart(f, right);
    if IsFinite(f, left) && IsFinite(f, right) {
      NearestIsNumber(f, Times(MagnitudeValue(f, left), MagnitudeValue(f, right)), f.One(), result);
    }
  }

  lemma QuotientIsInvalid(f: Layout, left: nat, right: nat, result: nat)
    requires IsQuotient(f, left, right, result)
    ensures IsNan(f, result)
            <==> IsNan(f, left) || IsNan(f, right)
                 || (IsInfinite(f, left) && IsInfinite(f, right)) || (IsZero(f, left) && IsZero(f, right))
  {
    hide Nearest, Value;
    ClassesApart(f, result);
    ClassesApart(f, left);
    ClassesApart(f, right);
    if IsFinite(f, left) && IsFinite(f, right) && !IsZero(f, right) {
      NearestIsNumber(f, Times(MagnitudeValue(f, left), f.One()), MagnitudeValue(f, right), result);
    }
  }
}
