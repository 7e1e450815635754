/** From one format to a wider one and back: `__extendsfdf2`, `__truncdfsf2` and the pairs with binary128. */
module Widths {
  import opened Powers
  import opened Bits
  import opened Sticky
  import opened Rounding
  import opened Packing
  import opened Ieee
  import opened Multiplication
  import opened SoftFloat

  /** Every significand and every exponent of `f`, the subnormal ones included, is a normal one of `g`. */
  predicate Wider(f: Layout, g: Layout) {
    f.fraction < g.fraction && f.Bias() + f.fraction <= g.Bias()
  }

  // How far a fraction moves, and how many units of the wider format make a unit, as a power of two.
  function Between(f: Layout, g: Layout): nat
    requires Wider(f, g)
  {
    g.fraction - f.fraction
  }

  function UnitShift(f: Layout, g: Layout): nat
    requires Wider(f, g)
  {
    g.Bias() + g.fraction - f.Bias() - f.fraction
  }

  /** A number has so many times as many units in the wider format. */
  lemma UnitsAgree(f: Layout, g: Layout)
    requires Wider(f, g)
    ensures Shl(f.One(), UnitShift(f, g)) == g.One()
  {
    Pow2Add(f.Bias() + f.fraction - 1, UnitShift(f, g));
  }

  /** A widening is exact: the same number in the smaller unit, and a payload that keeps its place. */
  ghost predicate IsWidened(f: Layout, g: Layout, p: nat, q: nat)
    requires Wider(f, g)
  {
    && IsPattern(g, q)
    && (Negative(g, q) <==> Negative(f, p))
    && if IsNan(f, p) then Magnitude(g, q) == g.Infinity() + Shl(QuietFraction(f, FractionOf(f, p)), Between(f, g))
       else if IsInfinite(f, p) then Magnitude(g, q) == g.Infinity()
       else Magnitude(g, q) < g.Infinity() && MagnitudeValue(g, q) == Shl(MagnitudeValue(f, p), UnitShift(f, g))
  }

  /** A narrowing rounds to nearest, and cuts a payload, quieting what is left of it. */
  ghost predicate IsNarrowed(f: Layout, g: Layout, q: nat, p: nat)
    requires Wider(f, g)
  {
    if IsNan(g, q) then
      DivBounds(FractionOf(g, q), Pow2(Between(f, g)));
      && IsPattern(f, p) && (Negative(f, p) <==> Negative(g, q))
      && Magnitude(f, p) == f.Infinity() + QuietFraction(f, FractionOf(g, q) / Pow2(Between(f, g)))
    else if IsInfinite(g, q) then IsInfinityOf(f, Negative(g, q), p)
    else HasSignAndNearest(f, Negative(g, q), MagnitudeValue(g, q), Pow2(UnitShift(f, g)), p)
  }

  // The magnitude pattern of two fields.
  function Joined(g: Layout, exponent: nat, fraction: nat): nat {
    Times(exponent, g.Implicit()) + fraction
  }

  /** A significand with its leading one up, moved into the wider format's place. */
  lemma WidenedFields(f: Layout, g: Layout, v: nat, s: nat, e: int, exponent: nat, fraction: nat)
    requires Wider(f, g) && Normal(f, s) && Scaled(v, s, e)
    requires 1 <= exponent == e + g.Bias() - f.Bias() && fraction == Shl(s - f.Implicit(), Between(f, g))
    ensures fraction < g.Implicit()
    ensures Value(g, Joined(g, exponent, fraction)) == Shl(v, UnitShift(f, g))
  {
    var k := Between(f, g);
    MovedLeading(f, g, s);
    hide Shl, Value;
    ValueOf(g, exponent, fraction);
    ShlTwice(s, k, exponent - 1);
    UnitsMoved(v, s, e, k + exponent - 1, UnitShift(f, g));
    ShlIsProduct(Shl(s, k), exponent - 1);
  }

  lemma ShlIsProduct(a: nat, k: nat)
    ensures Shl(a, k) == a * Pow2(k)
  {
  }

  lemma MovedLeading(f: Layout, g: Layout, s: nat)
    requires Wider(f, g) && Normal(f, s)
    ensures Shl(s - f.Implicit(), Between(f, g)) < g.Implicit()
    ensures g.Implicit() + Shl(s - f.Implicit(), Between(f, g)) == Shl(s, Between(f, g))
  {
    var k := Between(f, g);
    Pow2Add(f.fraction, k);
    MulStrict(s - f.Implicit(), f.Implicit(), Pow2(k));
    Distribute(s, f.Implicit(), Pow2(k));
  }

  lemma UnitsMoved(v: nat, s: nat, e: int, up: nat, units: nat)
    requires Scaled(v, s, e) && up + Below(e) == Above(e) + units
    ensures Shl(s, up) == Shl(v, units)
  {
    hide Shl;
    ShlTwice(v, units, Below(e));
    ShlTwice(v, Below(e), units);
    ShlTwice(s, Above(e), units);
    ShlTwice(s, up, Below(e));
    ShlCancels(Shl(v, units), Shl(s, up), Below(e));
  }

  /** How far down the loop on a subnormal takes the exponent. */
  lemma SubnormalExponent(f: Layout, v: nat, s: nat, e: int)
    requires 0 < v && Normal(f, s) && Scaled(v, s, e) && e <= 1
    ensures e >= 1 - f.fraction
  {
    if e < 1 - f.fraction {
      ShlNone(s);
      Pow2Mono(f.fraction + 1, Below(e));
      MulMono(1, v, Pow2(Below(e)));
      assert false;
    }
  }

  /** The fields of a finite number for the wider format, as the field move or the loop on a subnormal finds
    * them: an exponent of the wider format and a fraction of this one.
    */
  method WidenFinite(f: Layout, g: Layout, p: nat) returns (exponent: nat, fraction: nat)
    requires Wider(f, g) && IsFinite(f, p) && !IsZero(f, p)
    ensures exponent < g.Top() && fraction < f.Implicit() && Shl(fraction, Between(f, g)) < g.Implicit()
    ensures Value(g, Joined(g, exponent, Shl(fraction, Between(f, g)))) == Shl(MagnitudeValue(f, p), UnitShift(f, g))
  {
    hide Value, ExponentOf, FractionOf, Magnitude;
    LayoutFacts(f);
    LayoutFacts(g);
    UnpackFields(f, p);
    UnpackValue(f, p);
    SumWithZero(f, p);
    var stored, significand := ExponentOf(f, p), f.Implicit() + FractionOf(f, p);
    var e: int := stored;
    ShlNone(MagnitudeValue(f, p));
    if stored == 0 {
      ghost var v := FractionOf(f, p);
      ShlNone(v);
      significand, e := Normalize(f, FractionOf(f, p), 1, v);
      SubnormalExponent(f, v, significand, e);
    }
    exponent := e + g.Bias() - f.Bias();
    fraction := significand - f.Implicit();
    WidenedFields(f, g, MagnitudeValue(f, p), significand, e, exponent, Shl(fraction, Between(f, g)));
  }

  /** The widening, on the numbers the patterns are. */
  method Extend(f: Layout, g: Layout, p: nat) returns (q: nat)
    requires Wider(f, g) && IsPattern(f, p)
    ensures IsWidened(f, g, p, q)
  {
    hide Value, ExponentOf, FractionOf, Magnitude, Shl, QuietFraction, Or;
    LayoutFacts(g);
    var sign := if Negative(f, p) then g.SignBit() else 0;
    var fraction := FractionOf(f, p);
    if ExponentOf(f, p) == f.Top() {
      SpecialWidens(f, g, sign, fraction);
      return Packed(g, sign, g.Top(), if fraction == 0 then 0
            else Shl(Or(fraction, Pow2(f.fraction - 1)), Between(f, g)));
    }
    if IsZero(f, p) {
      ZeroValues(f, g, p);
      SignAndMagnitude(g, sign, 0);
      return sign;
    }
    var exponent, moved := WidenFinite(f, g, p);
    FinitePacks(g, sign, exponent, Shl(moved, Between(f, g)));
    q := Packed(g, sign, exponent, Shl(moved, Between(f, g)));
  }

  lemma FinitePacks(g: Layout, sign: nat, exponent: nat, fraction: nat)
    requires sign == 0 || sign == g.SignBit()
    requires exponent < g.Top() && fraction < g.Implicit()
    ensures var q := Packed(g, sign, exponent, fraction);
      && IsPattern(g, q) && (Negative(g, q) <==> sign != 0)
      && Magnitude(g, q) == Joined(g, exponent, fraction) < g.Infinity()
  {
    hide Packed;
    PackedIsSum(g, sign, exponent, fraction);
    SignAndMagnitude(g, sign, Joined(g, exponent, fraction));
    BelowInfinity(g, exponent, fraction);
  }

  /** An infinity and a not a number in the wider format. */
  lemma SpecialWidens(f: Layout, g: Layout, sign: nat, fraction: nat)
    requires Wider(f, g) && fraction < f.Implicit()
    requires sign == 0 || sign == g.SignBit()
    ensures var payload := if fraction == 0 then 0 else Shl(Or(fraction, Pow2(f.fraction - 1)), Between(f, g));
      var q := Packed(g, sign, g.Top(), payload);
      && IsPattern(g, q) && (Negative(g, q) <==> sign != 0)
      && Magnitude(g, q) == g.Infinity() + if fraction == 0 then 0 else Shl(QuietFraction(f, fraction), Between(f, g))
  {
    hide Packed, Or, Shl, QuietFraction;
    LayoutFacts(g);
    if fraction == 0 {
      PackedIsSum(g, sign, g.Top(), 0);
      SignAndMagnitude(g, sign, g.Infinity());
    } else {
      OrQuiet(f, fraction);
      MovedBelow(f, g, QuietFraction(f, fraction));
      PackedIsSum(g, sign, g.Top(), Shl(QuietFraction(f, fraction), Between(f, g)));
      SignAndMagnitude(g, sign, g.Infinity() + Shl(QuietFraction(f, fraction), Between(f, g)));
    }
  }

  lemma BelowInfinity(g: Layout, exponent: nat, fraction: nat)
    requires exponent < g.Top() && fraction < g.Implicit()
    ensures exponent * g.Implicit() + fraction < g.Infinity()
  {
    MulMono(exponent + 1, g.Top(), g.Implicit());
    Distribute(exponent, 1, g.Implicit());
  }

  lemma MovedBelow(f: Layout, g: Layout, fraction: nat)
    requires Wider(f, g) && fraction < f.Implicit()
    ensures Shl(fraction, Between(f, g)) < g.Implicit()
  {
    Pow2Add(f.fraction, Between(f, g));
    MulStrict(fraction, f.Implicit(), Pow2(Between(f, g)));
  }

  lemma ZeroValues(f: Layout, g: Layout, p: nat)
    requires Wider(f, g) && IsZero(f, p)
    ensures Shl(MagnitudeValue(f, p), UnitShift(f, g)) == 0 == Value(g, 0)
    ensures g.Infinity() > 0 && !IsNan(f, p) && !IsInfinite(f, p)
  {
    LayoutFacts(f);
    LayoutFacts(g);
    Classes(f, p);
    ValueOf(f, 0, 0);
    ValueOf(g, 0, 0);
  }

  /** What a narrowing packs: the significand of the wider format cut down with its sticky bit. */
  lemma NarrowRounds(f: Layout, g: Layout, sign: nat, v: nat, significand: nat, stored: nat, cut: nat)
    requires Wider(f, g) && g.fraction >= Leading(f) + 1
    requires sign == 0 || sign == f.SignBit()
    requires 1 <= stored && significand < 2 * g.Implicit() && (stored > 1 ==> significand >= g.Implicit())
    requires v == significand * Pow2(stored - 1)
    requires cut == RoundOdd(significand, Pow2(g.fraction - Leading(f)))
    ensures var r := RoundAndPack(f, sign, stored - g.Bias() + f.Bias(), cut);
      Packable(f, stored - g.Bias() + f.Bias(), cut) && r >= sign && Nearest(f, v, Pow2(UnitShift(f, g)), r - sign)
  {
    hide RoundAndPack, Nearest, Value, Agrees;
    var e := stored - g.Bias() + f.Bias();
    var d := Pow2(g.fraction - Leading(f));
    NarrowedRange(f, g, significand, stored);
    RoundOddAgrees(significand, d);
    AgreesCoarser(cut, significand, d, 2, 2);
    NarrowQuotient(f, g, significand, stored);
    PackRoundsTo(f, sign, e, cut, significand, d, v, Pow2(UnitShift(f, g)));
  }

  lemma NarrowedRange(f: Layout, g: Layout, significand: nat, stored: nat)
    requires Wider(f, g) && g.fraction >= Leading(f) + 1
    requires significand < 2 * g.Implicit() && (stored > 1 ==> significand >= g.Implicit())
    ensures var cut := RoundOdd(significand, Pow2(g.fraction - Leading(f)));
      cut < 2 * Pow2(Leading(f)) && (stored > 1 ==> cut >= Pow2(Leading(f)))
  {
    Pow2Add(Leading(f), g.fraction - Leading(f));
    RoundOddRange(significand, Pow2(g.fraction - Leading(f)), Pow2(Leading(f)));
  }

  lemma NarrowQuotient(f: Layout, g: Layout, significand: nat, stored: nat)
    requires Wider(f, g) && g.fraction >= Leading(f) + 1 && stored >= 1
    ensures var e := stored - g.Bias() + f.Bias();
      Shl(significand, Above(e)) * Pow2(UnitShift(f, g))
      == significand * Pow2(stored - 1) * Shl(8 * Pow2(g.fraction - Leading(f)), Below(e))
  {
    var e := stored - g.Bias() + f.Bias();
    var k := UnitShift(f, g);
    ShlTwice(significand, Above(e), k);
    assert Pow2(3) == 8;
    Pow2Add(3, g.fraction - Leading(f));
    Pow2Add(g.fraction - f.fraction, Below(e));
    ShlTwice(significand, stored - 1, g.fraction - f.fraction + Below(e));
    assert Above(e) + k == stored - 1 + (g.fraction - f.fraction + Below(e));
  }

  /** `__truncdfsf2`, on a wider format that fits its word. */
  method Truncate(f: Layout, g: Layout, q: nat) returns (p: nat)
    requires Wider(f, g) && g.fraction >= Leading(f) + 1 && IsPattern(g, q)
    ensures IsNarrowed(f, g, q, p)
  {
    hide Value, Unpack, Magnitude, Shl, RoundOdd, ShiftDown;
    UnpackValue(g, q);
    var (significand, stored) := Unpack(g, q);
    SignificandFits(g, significand);
    ShiftDownRoundsToOdd(g.word, significand, g.fraction - Leading(f));
    PayloadBelow(f, g, FractionOf(g, q));
    p := PackNarrowed(f, g, q, ShiftDown(g.word, significand, g.fraction - Leading(f)),
                      Shr(FractionOf(g, q), Between(f, g)));
  }

  lemma SignificandFits(g: Layout, significand: nat)
    requires significand < 2 * g.Implicit()
    ensures significand < Pow2(g.word)
  {
    Pow2Mono(g.fraction + 1, g.word);
  }

  /** The four cases of a narrowing, given the significand and the payload already cut to the narrower format's
    * bits.
    */
  method PackNarrowed(f: Layout, g: Layout, q: nat, cut: nat, payload: nat) returns (p: nat)
    requires Wider(f, g) && g.fraction >= Leading(f) + 1 && IsPattern(g, q)
    requires payload == FractionOf(g, q) / Pow2(Between(f, g))
    requires var (significand, stored) := Unpack(g, q);
      significand >= 0 && cut == RoundOdd(significand, Pow2(g.fraction - Leading(f)))
    ensures IsNarrowed(f, g, q, p)
  {
    hide Value, Nearest, ExponentOf, FractionOf, Magnitude, RoundAndPack, QuietFraction, Or, RoundOdd, IsInfinityOf;
    LayoutFacts(f);
    LayoutFacts(g);
    var sign := if Negative(g, q) then f.SignBit() else 0;
    var fraction := FractionOf(g, q);
    if ExponentOf(g, q) == g.Top() {
      if fraction == 0 {
        PackedIsSum(f, sign, f.Top(), 0);
        SignedSpecials(f, Negative(g, q));
        return Packed(f, sign, f.Top(), 0);
      }
      PayloadBelow(f, g, fraction);
      OrQuiet(f, payload);
      p := Packed(f, sign, f.Top(), Or(payload, Pow2(f.fraction - 1)));
      PackedIsSum(f, sign, f.Top(), QuietFraction(f, payload));
      SignAndMagnitude(f, sign, f.Infinity() + QuietFraction(f, payload));
      return;
    }
    UnpackValue(g, q);
    var (significand, stored) := Unpack(g, q);
    SumWithZero(g, q);
    if IsZero(g, q) {
      NearestZero(f, Pow2(UnitShift(f, g)));
      SignAndMagnitude(f, sign, 0);
      return sign;
    }
    NarrowRounds(f, g, sign, MagnitudeValue(g, q), significand, stored, cut);
    p := RoundAndPack(f, sign, stored - g.Bias() + f.Bias(), cut);
    PackedPattern(f, sign, MagnitudeValue(g, q), Pow2(UnitShift(f, g)), p);
  }

  lemma PayloadBelow(f: Layout, g: Layout, fraction: nat)
    requires Wider(f, g) && fraction < g.Implicit()
    ensures 0 <= fraction / Pow2(Between(f, g)) < f.Implicit()
  {
    hide Pow2;
    Pow2Add(f.fraction, Between(f, g));
    DivBounds(fraction, Pow2(Between(f, g)));
    DivBelow(fraction, Pow2(Between(f, g)), f.Implicit());
  }

  /** Narrowing what was widened gives it back, quieted where it was not a number. */
  lemma NarrowingUndoesWidening(f: Layout, g: Layout, p: nat, q: nat, r: nat)
    requires Wider(f, g) && IsPattern(f, p)
    requires IsWidened(f, g, p, q) && IsNarrowed(f, g, q, r)
    ensures r == if IsNan(f, p) then Quiet(f, p) else p
  {
    hide *;
    PatternIsSignAndMagnitude(f, p);
    WidenedClass(f, g, p, q);
    if IsNan(f, p) {
      QuietPattern(f, p);
      NarrowedPayload(f, g, p, q, r);
      SameSign(f, p, r);
    } else {
      NarrowedNumber(f, g, p, q, r);
      SameSign(f, p, r);
    }
  }

  lemma SameSign(f: Layout, p: nat, r: nat)
    requires IsPattern(f, r) && (Negative(f, r) <==> Negative(f, p))
    ensures r == SignOf(f, p) + Magnitude(f, r)
  {
    PatternIsSignAndMagnitude(f, r);
  }

  lemma WidenedClass(f: Layout, g: Layout, p: nat, q: nat)
    requires Wider(f, g) && IsWidened(f, g, p, q)
    ensures IsNan(g, q) <==> IsNan(f, p)
    ensures IsInfinite(g, q) <==> IsInfinite(f, p)
  {
    hide Value, Nearest, QuietFraction;
    Classes(f, p);
    Classes(g, q);
    if IsNan(f, p) {
      OrQuiet(f, FractionOf(f, p));
      MulMono(1, QuietFraction(f, FractionOf(f, p)), Pow2(Between(f, g)));
    }
  }

  lemma NarrowedPayload(f: Layout, g: Layout, p: nat, q: nat, r: nat)
    requires Wider(f, g) && IsNan(f, p) && IsNan(g, q)
    requires IsWidened(f, g, p, q) && IsNarrowed(f, g, q, r)
    ensures IsPattern(f, r) && (Negative(f, r) <==> Negative(f, p))
    ensures Magnitude(f, r) == f.Infinity() + QuietFraction(f, FractionOf(f, p))
  {
    hide Value, Nearest, IsNan, Magnitude, ExponentOf;
    var quieted := QuietFraction(f, FractionOf(f, p));
    OrQuiet(f, FractionOf(f, p));
    MovedBelow(f, g, quieted);
    DivModUnique(Magnitude(g, q), g.Implicit(), g.Top(), Shl(quieted, Between(f, g)));
    DivModUnique(Shl(quieted, Between(f, g)), Pow2(Between(f, g)), quieted, 0);
  }

  lemma NarrowedNumber(f: Layout, g: Layout, p: nat, q: nat, r: nat)
    requires Wider(f, g) && !IsNan(f, p) && !IsNan(g, q) && (IsInfinite(g, q) <==> IsInfinite(f, p))
    requires IsWidened(f, g, p, q) && IsNarrowed(f, g, q, r)
    ensures IsPattern(f, r) && (Negative(f, r) <==> Negative(f, p))
    ensures Magnitude(f, r) == Magnitude(f, p)
  {
    hide Value, Nearest, IsNan, IsInfinite, Magnitude;
    Classes(f, p);
    if IsInfinite(f, p) {
      Classes(f, r);
    } else {
      var k := Pow2(UnitShift(f, g));
      NearestExact(f, k, Magnitude(f, p));
      NearestUnique(f, MagnitudeValue(f, p) * k, k, Magnitude(f, r), Magnitude(f, p));
    }
  }

  /** Widening in two steps is widening in one, bit for bit. */
  lemma WideningCommutes(f: Layout, g: Layout, h: Layout, p: nat, q: nat, r: nat, direct: nat)
    requires Wider(f, g) && Wider(g, h) && Wider(f, h)
    requires IsWidened(f, g, p, q) && IsWidened(g, h, q, r) && IsWidened(f, h, p, direct)
    ensures r == direct
  {
    PatternIsSignAndMagnitude(h, r);
    PatternIsSignAndMagnitude(h, direct);
    Classes(f, p);
    Classes(g, q);
    if IsNan(f, p) {
      var quieted := QuietFraction(f, FractionOf(f, p));
      OrQuiet(f, FractionOf(f, p));
      MovedBelow(f, g, quieted);
      LayoutFacts(g);
      var moved := Shl(quieted, Between(f, g));
      DivModUnique(Magnitude(g, q), g.Implicit(), g.Top(), moved);
      ShlTwice(quieted, Between(f, g), Between(g, h));
      QuietMoves(f, g, quieted);
    } else if IsFinite(f, p) {
      hide Value, Shl;
      ShlTwice(MagnitudeValue(f, p), UnitShift(f, g), UnitShift(g, h));
      ValueMono(h, Magnitude(h, r), Magnitude(h, direct));
      ValueMono(h, Magnitude(h, direct), Magnitude(h, r));
    }
  }

  /** The quiet bit of one format moves to the quiet bit of the next. */
  lemma QuietMoves(f: Layout, g: Layout, quieted: nat)
    requires Wider(f, g) && quieted >= Pow2(f.fraction - 1)
    ensures var moved := Shl(quieted, Between(f, g)); moved > 0 && QuietFraction(g, moved) == moved
  {
    Pow2Add(f.fraction - 1, Between(f, g));
    MulMono(Pow2(f.fraction - 1), quieted, Pow2(Between(f, g)));
  }
}
