/** The conversions of float.c and double.c: to and from the integers, and between one format and a wider one. */
module Conversions {
  import opened Powers
  import opened Bits
  import opened Integers
  import opened Sticky
  import opened Rounding
  import opened Packing
  import opened Ieee
  import opened Multiplication
  import opened SoftFloat

  /** How many bits an integer needs. */
  method WidthOf(value: nat) returns (bits: nat)
    ensures value == 0 <==> bits == 0
    ensures bits > 0 ==> Pow2(bits - 1) <= value < Pow2(bits)
  {
    var rest := value;
    bits := 0;
    assert Shl(rest, 0) == rest by { ShlNone(rest); }
    while rest != 0
      invariant Shl(rest, bits) <= value < Shl(rest + 1, bits)
      invariant rest == 0 ==> (value == 0 <==> bits == 0) && (bits > 0 ==> Pow2(bits - 1) <= value)
    {
      HalvedUnderShift(rest, bits);
      rest, bits := rest / 2, bits + 1;
    }
  }

  lemma HalvedUnderShift(rest: nat, bits: nat)
    requires rest > 0
    ensures Shl(rest / 2, bits + 1) <= Shl(rest, bits) && Shl(rest + 1, bits) <= Shl(rest / 2 + 1, bits + 1)
    ensures Pow2(bits) <= Shl(rest, bits)
  {
    var p := Pow2(bits);
    MulMono(rest / 2 * 2, rest, p);
    MulMono(rest + 1, (rest / 2 + 1) * 2, p);
    MulMono(1, rest, p);
    MulAssoc(rest / 2, 2, p);
    MulAssoc(rest / 2 + 1, 2, p);
  }

  /** What an integer is packed from: its leading one moved to where the rounding wants it. */
  lemma IntegerRounds(f: Layout, sign: nat, magnitude: nat, top: nat, s: nat)
    requires sign == 0 || sign == f.SignBit()
    requires Pow2(top) <= magnitude < 2 * Pow2(top)
    requires s == if top <= Leading(f) then Shl(magnitude, Leading(f) - top)
          else RoundOdd(magnitude, Pow2(top - Leading(f)))
    ensures Packable(f, top + f.Bias(), s)
    ensures RoundAndPack(f, sign, top + f.Bias(), s) >= sign
    ensures Nearest(f, Times(magnitude, f.One()), 1, RoundAndPack(f, sign, top + f.Bias(), s) - sign)
  {
    LayoutFacts(f);
    var e := top + f.Bias();
    if top <= Leading(f) {
      LeadingMovedUp(f, magnitude, top);
      ExactAgreement(s);
      IntegerQuotientUp(magnitude, Leading(f) - top, e - 1, f.Bias() + f.fraction - 1);
      hide Value, Nearest, RoundAndPack, Agrees, Shl;
      PackRoundsTo(f, sign, e, s, s, 1, Times(magnitude, f.One()), 1);
    } else {
      LeadingMovedDown(f, magnitude, top);
      var d := Pow2(top - Leading(f));
      RoundOddAgrees(magnitude, d);
      AgreesCoarser(s, magnitude, d, 2, 2);
      IntegerQuotientDown(magnitude, top - Leading(f), e - 1, f.Bias() + f.fraction - 1);
      hide Value, Nearest, RoundAndPack, Agrees, Shl;
      PackRoundsTo(f, sign, e, s, magnitude, d, Times(magnitude, f.One()), 1);
    }
  }

  lemma LeadingMovedUp(f: Layout, magnitude: nat, top: nat)
    requires top <= Leading(f) && Pow2(top) <= magnitude < 2 * Pow2(top)
    ensures Pow2(Leading(f)) <= Shl(magnitude, Leading(f) - top) < 2 * Pow2(Leading(f))
  {
    var p := Pow2(Leading(f) - top);
    Pow2Add(top, Leading(f) - top);
    MulMono(Pow2(top), magnitude, p);
    MulStrict(magnitude, 2 * Pow2(top), p);
    MulAssoc(2, Pow2(top), p);
  }

  lemma LeadingMovedDown(f: Layout, magnitude: nat, top: nat)
    requires top > Leading(f) && Pow2(top) <= magnitude < 2 * Pow2(top)
    ensures Pow2(Leading(f)) <= RoundOdd(magnitude, Pow2(top - Leading(f))) < 2 * Pow2(Leading(f))
  {
    Pow2Add(Leading(f), top - Leading(f));
    RoundOddRange(magnitude, Pow2(top - Leading(f)), Pow2(Leading(f)));
  }

  lemma IntegerQuotientUp(n: nat, up: nat, i: nat, ones: nat)
    requires up + i == ones + 3
    ensures Shl(Shl(n, up), i) * 1 == Times(n, Pow2(ones)) * Shl(8 * 1, 0)
  {
    ShlTwice(n, up, i);
    assert Pow2(3) == 8;
    ShlTwice(n, ones, 3);
    ShlNone(8);
  }

  lemma IntegerQuotientDown(n: nat, down: nat, i: nat, ones: nat)
    requires i == ones + 3 + down
    ensures Shl(n, i) * 1 == Times(n, Pow2(ones)) * Shl(8 * Pow2(down), 0)
  {
    assert Pow2(3) == 8;
    Pow2Add(3, down);
    ShlTwice(n, ones, 3 + down);
    ShlNone(8 * Pow2(down));
  }

  /** The number nearest an integer of one word. */
  method FromInteger(f: Layout, sign: nat, magnitude: nat) returns (result: nat)
    requires f.word == 64 && magnitude < Pow2(64)
    requires sign == 0 || sign == f.SignBit()
    ensures HasSignAndNearest(f, sign != 0, Times(magnitude, f.One()), 1, result)
  {
    hide Value, Nearest, RoundAndPack, RoundOdd, ShiftDown, Magnitude, Shl;
    LayoutFacts(f);
    if magnitude == 0 {
      NearestZero(f, 1);
      SignAndMagnitude(f, sign, 0);
      return sign;
    }
    var bits := WidthOf(magnitude);
    var top := bits - 1;
    assert Pow2(bits) == 2 * Pow2(top);
    hide Pow2;
    var significand;
    if top <= Leading(f) {
      IntegerRounds(f, sign, magnitude, top, Shl(magnitude, Leading(f) - top));
      LeadingFacts(f);
      significand := Modulo(f.word, Shl(magnitude, Leading(f) - top));
    } else {
      ShiftDownRoundsToOdd(f.word, magnitude, top - Leading(f));
      significand := ShiftDown(f.word, magnitude, top - Leading(f));
      IntegerRounds(f, sign, magnitude, top, significand);
    }
    result := RoundAndPack(f, sign, top + f.Bias(), significand);
    PackedPattern(f, sign, Times(magnitude, f.One()), 1, result);
  }

  /** A signed word, through a magnitude taken in the unsigned type. */
  method FromSigned(f: Layout, value: int) returns (result: nat)
    requires f.word == 64 && IsSigned(64, value)
    ensures RoundsTo(f, value * f.One(), 1, false, result)
  {
    hide Nearest, Pow2, MagnitudeBits;
    MagnitudeIsAbsolute(64, value);
    Pow2Mono(63, 64);
    var magnitude := MagnitudeBits(64, value);
    result := FromInteger(f, if value < 0 then f.SignBit() else 0, magnitude);
    SignOfProduct(value, magnitude, f.One());
  }

  lemma SignOfProduct(value: int, magnitude: nat, one: nat)
    requires one > 0 && magnitude == if value < 0 then 0 - value else value
    ensures Times(magnitude, one) == if value * one < 0 then 0 - value * one else value * one
    ensures value * one < 0 <==> value < 0
  {
    MulStrict(0, value, one);
    MulStrict(value, 0, one);
  }

  /** The whole part of a finite value, and how it is cut out of the significand. */
  lemma WholePart(f: Layout, v: nat, significand: nat, stored: nat)
    requires stored >= 1 && v == significand * Pow2(stored - 1)
    ensures var exponent := stored - f.Bias();
      v / f.One() == if exponent >= f.fraction then Shl(significand, exponent - f.fraction)
                     else significand / Pow2(f.fraction - exponent)
  {
    LayoutFacts(f);
    var exponent := stored - f.Bias();
    var ones := f.Bias() + f.fraction - 1;
    if exponent >= f.fraction {
      ShlTwice(significand, exponent - f.fraction, ones);
      DivModUnique(v, f.One(), Shl(significand, exponent - f.fraction), 0);
    } else {
      var d := Pow2(f.fraction - exponent);
      Pow2Add(f.fraction - exponent, stored - 1);
      DivCancels(significand, d, Pow2(stored - 1));
    }
  }

  lemma BelowOne(f: Layout, significand: nat, exponent: int)
    requires exponent < 0 && significand < 2 * f.Implicit()
    ensures significand / Pow2(f.fraction - exponent) == 0
  {
    Pow2Mono(f.fraction + 1, f.fraction - exponent);
    ModSmall(significand, Pow2(f.fraction - exponent));
  }

  lemma DivCancels(n: nat, d: nat, c: nat)
    requires d > 0 && c > 0
    ensures d * c > 0 && n * c / (d * c) == n / d
  {
    MulStrict(0, d, c);
    DivModFacts(n, d);
    var q, r := n / d, n % d;
    Distribute(q * d, r, c);
    MulAssoc(q, d, c);
    MulStrict(r, d, c);
    MulMono(0, r, c);
    DivModUnique(n * c, d * c, q, r * c);
  }

  /** A value fits an integer of so many bits exactly up to the exponent that is tested for. */
  lemma FitsBits(f: Layout, v: nat, significand: nat, stored: nat, bits: nat)
    requires stored >= 1 && bits >= 1 && v == significand * Pow2(stored - 1)
    requires significand < 2 * f.Implicit() && (stored > 1 ==> significand >= f.Implicit())
    ensures stored - f.Bias() <= bits - 1 <==> v < Times(Pow2(bits), f.One())
  {
    LayoutFacts(f);
    var p := Pow2(stored - 1);
    var ones := f.Bias() + f.fraction - 1;
    Pow2Add(bits, ones);
    if stored - f.Bias() <= bits - 1 {
      Pow2Add(f.fraction + 1, stored - 1);
      Pow2Mono(f.fraction + stored, bits + ones);
      MulStrict(significand, 2 * f.Implicit(), p);
    } else {
      Pow2Add(f.fraction, stored - 1);
      Pow2Mono(bits + ones, f.fraction + stored - 1);
      MulMono(f.Implicit(), significand, p);
    }
  }

  /** The part of a number on the integer side of the point, where sixty four bits hold it. */
  method IntegerOf(f: Layout, p: nat) returns (ok: bool, magnitude: nat)
    requires f.word == 64
    ensures ok <==> IsFinite(f, p) && MagnitudeValue(f, p) < Times(Pow2(64), f.One())
    ensures magnitude == if ok then MagnitudeValue(f, p) / f.One() else 0
  {
    hide Unpack, Value, ExponentOf, FractionOf, Shl, Magnitude, Pow2;
    if ExponentOf(f, p) == f.Top() { return false, 0; }
    UnpackValue(f, p);
    var (significand, stored) := Unpack(f, p);
    var exponent := stored - f.Bias();
    WholePart(f, MagnitudeValue(f, p), significand, stored);
    FitsBits(f, MagnitudeValue(f, p), significand, stored, 64);
    if exponent < 0 {
      BelowOne(f, significand, exponent);
      return true, 0;
    }
    if exponent > 63 { return false, 0; }
    DivBelow(MagnitudeValue(f, p), f.One(), Pow2(64));
    if exponent >= f.fraction {
      magnitude := Modulo(f.word, Shl(significand, exponent - f.fraction));
    } else {
      magnitude := Shr(significand, f.fraction - exponent);
    }
    ok := true;
  }

  /** The value truncated towards zero, section 6.3.1.4 of C17. */
  ghost function Truncated(f: Layout, p: nat): int {
    DivBounds(MagnitudeValue(f, p), f.One());
    var whole: int := MagnitudeValue(f, p) / f.One();
    if Negative(f, p) then -whole else whole
  }

  /** A conversion to a signed type of `width` bits, with zero for everything the type does not hold. */
  method ToSigned(f: Layout, p: nat, width: nat) returns (result: int)
    requires f.word == 64 && 1 <= width <= 64
    ensures var half: int := Pow2(width - 1);
      result == if IsFinite(f, p) && -half <= Truncated(f, p) < half then Truncated(f, p) else 0
  {
    var ok, magnitude := IntegerOf(f, p);
    WordHoldsTruncated(f, p, width);
    var signed := Pow2(width - 1);
    if !ok { return 0; }
    if Negative(f, p) && magnitude != 0 {
      if magnitude > signed { return 0; }
      return -(magnitude - 1) - 1;
    }
    if magnitude > signed - 1 { return 0; }
    result := magnitude;
  }

  method ToUnsigned(f: Layout, p: nat, width: nat) returns (result: nat)
    requires f.word == 64 && 1 <= width <= 64
    ensures result == if IsFinite(f, p) && 0 <= Truncated(f, p) < Pow2(width) then Truncated(f, p) else 0
  {
    var ok, magnitude := IntegerOf(f, p);
    WordHoldsTruncated(f, p, width);
    if !ok { return 0; }
    if Negative(f, p) && magnitude != 0 { return 0; }
    if magnitude > Pow2(width) - 1 { return 0; }
    result := magnitude;
  }

  lemma WordHoldsTruncated(f: Layout, p: nat, width: nat)
    requires 1 <= width <= 64
    ensures MagnitudeValue(f, p) / f.One() < Pow2(width) ==> MagnitudeValue(f, p) < Times(Pow2(64), f.One())
    ensures Pow2(width - 1) < Pow2(width)
  {
    Pow2Mono(width, 64);
    Pow2Mono(width - 1, width);
    BitsHoldWhole(f, p, width, 64);
  }

  lemma BitsHoldWhole(f: Layout, p: nat, width: nat, bits: nat)
    requires width <= bits
    ensures MagnitudeValue(f, p) / f.One() < Pow2(width) ==> MagnitudeValue(f, p) < Times(Pow2(bits), f.One())
  {
    hide Value, Magnitude;
    Pow2Mono(width, bits);
    DivBounds(MagnitudeValue(f, p), f.One());
    var q := MagnitudeValue(f, p) / f.One();
    if q < Pow2(width) { MulMono(q + 1, Pow2(bits), f.One()); }
  }

  /** A significand at any exponent of the range is a value of the format. */
  lemma {:induction false} Representable(f: Layout, a: nat, k: nat) returns (m: nat)
    requires a < 2 * f.Implicit() && k + 1 < f.Top()
    ensures m < f.Infinity() && Value(f, m) == Shl(a, k)
    decreases k
  {
    LayoutFacts(f);
    var h := f.Implicit();
    if a < h && k > 0 {
      ShlStep(a, k);
      ShlStep(2 * a, k - 1 + 1);
      m := Representable(f, 2 * a, k - 1);
      ShlOnce(a);
      ShlTwice(a, 1, k - 1);
    } else if a < h {
      m := 0 * h + a;
      ValueOf(f, 0, a);
      ShlNone(a);
      MulMono(1, f.Top(), h);
    } else {
      m := (k + 1) * h + (a - h);
      ValueOf(f, k + 1, a - h);
      MulMono(k + 2, f.Top(), h);
      Distribute(k + 1, 1, h);
    }
  }

  /** A value of the format is what it rounds to. */
  lemma ExactWhereRepresentable(f: Layout, a: nat, k: nat, m: nat)
    requires a < 2 * f.Implicit() && k + 1 < f.Top()
    requires Nearest(f, Shl(a, k), 1, m)
    ensures m < f.Infinity() && Value(f, m) == Shl(a, k)
  {
    var exact := Representable(f, a, k);
    hide Value, Nearest;
    NearestExact(f, 1, exact);
    NearestUnique(f, Shl(a, k), 1, m, exact);
  }

  /** An integer of no more bits than a significand is converted exactly, and comes back as it was. */
  lemma IntegerSurvives(f: Layout, n: nat, p: nat)
    requires f.fraction <= f.Bias() && n < 2 * f.Implicit()
    requires HasSignAndNearest(f, false, Times(n, f.One()), 1, p)
    ensures IsFinite(f, p) && MagnitudeValue(f, p) == n * f.One() && Truncated(f, p) == n
  {
    LayoutFacts(f);
    ExactWhereRepresentable(f, n, f.Bias() + f.fraction - 1, Magnitude(f, p));
    Classes(f, p);
    DivModUnique(n * f.One(), f.One(), n, 0);
  }
}
