/** Fields, and the rounding of a significand with three extra bits onto a packed pattern: the top halves of
  * float.c, double.c and quad.c, over any format.
  */
module Packing {
  import opened Powers
  import opened Bits
  import opened Sticky
  import opened Rounding

  // Guard, round and sticky.
  const EXTRA: nat := 3

  /** LEADING, the place of the leading one of a significand that has been shifted up by EXTRA. */
  function Leading(f: Layout): nat { f.fraction + EXTRA }

  predicate IsPattern(f: Layout, p: nat) { p < 2 * f.SignBit() }

  function Magnitude(f: Layout, p: nat): (m: nat)
    ensures m == p % f.SignBit() < f.SignBit()
  {
    DivModFacts(p, f.SignBit());
    p % f.SignBit()
  }

  predicate Negative(f: Layout, p: nat) { p >= f.SignBit() }

  // `p & SIGN`, as the number that is.
  function SignOf(f: Layout, p: nat): nat { if Negative(f, p) then f.SignBit() else 0 }

  function ExponentOf(f: Layout, p: nat): (e: nat)
    ensures e == Magnitude(f, p) / f.Implicit() <= f.Top()
  {
    AndMask(Shr(p, f.fraction), f.width);
    FieldsOfMagnitude(f, p);
    And(Shr(p, f.fraction), f.Top())
  }

  function FractionOf(f: Layout, p: nat): (r: nat)
    ensures r == Magnitude(f, p) % f.Implicit() < f.Implicit()
  {
    AndMask(p, f.fraction);
    FieldsOfMagnitude(f, p);
    And(p, f.Implicit() - 1)
  }

  lemma FieldsOfMagnitude(f: Layout, p: nat)
    ensures Magnitude(f, p) / f.Implicit() == p / f.Implicit() % Pow2(f.width) < Pow2(f.width)
    ensures Magnitude(f, p) % f.Implicit() == p % f.Implicit() < f.Implicit()
  {
    var h, t := f.Implicit(), Pow2(f.width);
    Pow2Add(f.width, f.fraction);
    assert f.SignBit() == h * t;
    DivDiv(p, h, t);
    DivModFacts(p / h, t);
    DivModFacts(p, h);
    DivModUnique(p % (h * t), h, p / h % t, p % h);
  }

  predicate IsNan(f: Layout, p: nat) { ExponentOf(f, p) == f.Top() && FractionOf(f, p) != 0 }

  predicate IsInfinite(f: Layout, p: nat) { ExponentOf(f, p) == f.Top() && FractionOf(f, p) == 0 }

  lemma Classes(f: Layout, p: nat)
    ensures IsInfinite(f, p) <==> Magnitude(f, p) == f.Infinity()
    ensures IsNan(f, p) <==> Magnitude(f, p) > f.Infinity()
  {
    var m, h := Magnitude(f, p), f.Implicit();
    DivModFacts(m, h);
    if m / h < f.Top() {
      MulMono(m / h + 1, f.Top(), h);
      Distribute(m / h, 1, h);
    }
  }

  /** `pattern | QUIET`: the top bit of the fraction set. */
  function Quiet(f: Layout, p: nat): nat { Or(p, Pow2(f.fraction - 1)) }

  function EmptyNan(f: Layout): nat { f.Infinity() + Pow2(f.fraction - 1) }

  /** A pattern put together from its three fields. */
  function Packed(f: Layout, sign: nat, exponent: nat, fraction: nat): nat {
    Or(Or(sign, exponent * f.Implicit()), fraction)
  }

  lemma PackedIsSum(f: Layout, sign: nat, e: nat, fraction: nat)
    requires sign == 0 || sign == f.SignBit()
    requires e <= f.Top() && fraction < f.Implicit()
    ensures e * f.Implicit() + fraction < f.SignBit()
    ensures Packed(f, sign, e, fraction) == sign + e * f.Implicit() + fraction
  {
    LayoutFacts(f);
    var h := f.Implicit();
    MulMono(e, f.Top(), h);
    Distribute(f.Top(), 1, h);
    assert sign % f.SignBit() == 0 by {
      DivModUnique(sign, f.SignBit(), if sign == 0 then 0 else 1, 0);
    }
    OrSum(sign, e * h, f.width + f.fraction);
    Pow2Add(f.width, f.fraction);
    var k := if sign == 0 then e else Pow2(f.width) + e;
    assert sign + e * h == k * h by { Distribute(Pow2(f.width), e, h); }
    DivModUnique(k * h, h, k, 0);
    OrSum(sign + e * h, fraction, f.fraction);
  }

  /** A sign in front of a magnitude, as the parts it comes apart into again. */
  lemma SignAndMagnitude(f: Layout, sign: nat, m: nat)
    requires sign == 0 || sign == f.SignBit()
    requires m < f.SignBit()
    ensures IsPattern(f, sign + m) && Magnitude(f, sign + m) == m && SignOf(f, sign + m) == sign
    ensures Negative(f, sign + m) <==> sign != 0
  {
    DivModUnique(sign + m, f.SignBit(), if sign == 0 then 0 else 1, m);
  }

  lemma PatternIsSignAndMagnitude(f: Layout, p: nat)
    requires IsPattern(f, p)
    ensures p == SignOf(f, p) + Magnitude(f, p)
  {
    if Negative(f, p) { DivModUnique(p, f.SignBit(), 1, p - f.SignBit()); } else { ModSmall(p, f.SignBit()); }
  }

  /** `unpack`: a significand and the exponent it goes with. */
  function Unpack(f: Layout, p: nat): (int, int) {
    var stored, fraction := ExponentOf(f, p), FractionOf(f, p);
    if stored == 0 then (fraction, 1) else (Or(fraction, f.Implicit()), stored)
  }

  lemma UnpackFields(f: Layout, p: nat)
    ensures Unpack(f, p) == if ExponentOf(f, p) == 0 then (FractionOf(f, p), 1)
                            else (f.Implicit() + FractionOf(f, p), ExponentOf(f, p))
    ensures Magnitude(f, p) == ExponentOf(f, p) * f.Implicit() + FractionOf(f, p)
  {
    var h := f.Implicit();
    DivModUnique(h, h, 1, 0);
    OrSum(h, FractionOf(f, p), f.fraction);
    DivModFacts(Magnitude(f, p), h);
  }

  /** What `unpack` hands the arithmetic, and that it is the value of the pattern. */
  lemma UnpackValue(f: Layout, p: nat)
    ensures var (significand, exponent) := Unpack(f, p);
      && 0 <= significand < 2 * f.Implicit()
      && 1 <= exponent
      && (exponent > 1 ==> significand >= f.Implicit())
      && (!IsNan(f, p) && !IsInfinite(f, p) ==> exponent < f.Top())
      && Value(f, Magnitude(f, p)) == significand * Pow2(exponent - 1)
      && (significand == 0 <==> Magnitude(f, p) == 0)
  {
    hide Unpack, Value, ExponentOf, FractionOf, Magnitude;
    UnpackFields(f, p);
    LayoutFacts(f);
    var e, fraction := ExponentOf(f, p), FractionOf(f, p);
    ValueOf(f, e, fraction);
    assert Pow2(0) == 1;
    if e > 0 { MulMono(1, e, f.Implicit()); }
  }

  /** `round_and_pack`, with `sign` either zero or the sign bit. */
  function RoundAndPack(f: Layout, sign: nat, exponent: int, significand: nat): nat {
    var s := if exponent <= 0 then ShiftDown(f.word, significand, 1 - exponent) else significand;
    var e := if exponent <= 0 || significand < Pow2(Leading(f)) then 0 else exponent;
    if e >= f.Top() then Or(sign, f.Infinity())
    else
      var below := And(s, Pow2(EXTRA) - 1);
      var result := Packed(f, sign, e, And(Shr(s, EXTRA), f.Implicit() - 1));
      if below > Pow2(EXTRA - 1) then result + 1
      else if below == Pow2(EXTRA - 1) then result + And(result, 1)
      else result
  }

  /** What `round_and_pack` demands: room for one bit above the leading one, and the leading one there unless
    * the exponent is at the bottom of the range.
    */
  ghost predicate Packable(f: Layout, exponent: int, s: nat) {
    && s < 2 * Pow2(Leading(f))
    && (s >= Pow2(Leading(f)) || exponent <= 1)
  }

  lemma LeadingFacts(f: Layout)
    ensures Pow2(Leading(f)) == 8 * f.Implicit()
    ensures Pow2(Leading(f) + 3) == 64 * f.Implicit() <= Pow2(f.word)
  {
    Pow2Add(3, f.fraction);
    Pow2Add(6, f.fraction);
    assert Pow2(3) == 8 && Pow2(6) == 64;
    Pow2Mono(Leading(f) + 3, f.word);
  }

  /** Where the exact value stands against the three rounding bits. */
  lemma Eighths(s: nat, num: int, den: int)
    requires den > 0 && Agrees(s, num, den, 4)
    ensures s / 8 * 8 * den <= num < (s / 8 * 8 + 8) * den
    ensures s % 8 < 4 <==> num < (s / 8 * 8 + 4) * den
    ensures s % 8 > 4 <==> num > (s / 8 * 8 + 4) * den
  {
    var q := s / 8 * 8;
    assert (q + 8) * den == q * den + 8 * den && (q + 4) * den == q * den + 4 * den;
    assert s / 4 == if s % 8 < 4 then 2 * (s / 8) else 2 * (s / 8) + 1;
    if s % 4 == 0 {
      assert s == q || s == q + 4;
    } else {
      assert s / 4 * 4 == q || s / 4 * 4 == q + 4;
    }
  }

  /** The three rounding bits and the fraction above them, as arithmetic. */
  lemma RoundingBits(f: Layout, s: nat)
    ensures And(s, Pow2(EXTRA) - 1) == s % 8
    ensures And(Shr(s, EXTRA), f.Implicit() - 1) == s / 8 % f.Implicit()
  {
    assert Pow2(3) == 8;
    AndMask(s, 3);
    AndMask(Shr(s, 3), f.fraction);
  }

  lemma LowBit(f: Layout, sign: nat, base: nat)
    requires sign == 0 || sign == f.SignBit()
    ensures And(sign + base, 1) == base % 2
  {
    assert Pow2(1) == 2;
    AndMask(sign + base, 1);
    assert f.SignBit() == 2 * Pow2(f.width + f.fraction - 1);
  }

  // The exponent field that goes with a significand, which is zero where its leading one is missing.
  function StoredField(f: Layout, e: nat, s: nat): nat { if s < Pow2(Leading(f)) then 0 else e }

  /** The magnitude pattern before rounding: the significand without its three rounding bits. */
  function Unrounded(f: Layout, e: nat, s: nat): nat {
    DivModFacts(s / 8, f.Implicit());
    StoredField(f, e, s) * f.Implicit() + s / 8 % f.Implicit()
  }

  lemma RoundingPowers()
    ensures Pow2(EXTRA) == 8 && Pow2(EXTRA - 1) == 4
  {
  }

  /** The rounding of the packed pattern, as arithmetic. */
  lemma PackArithmetic(f: Layout, sign: nat, e: nat, s: nat)
    requires sign == 0 || sign == f.SignBit()
    requires e >= 1 && Packable(f, e, s)
    ensures var base := Unrounded(f, e, s);
      if StoredField(f, e, s) >= f.Top() then RoundAndPack(f, sign, e, s) == sign + f.Infinity()
      else
        && base < f.Infinity()
        && RoundAndPack(f, sign, e, s) == sign + if s % 8 < 4 then base
                                                  else if s % 8 > 4 then base + 1 else base + base % 2
  {
    hide And, Or, Pow2;
    RoundingPowers();
    LayoutFacts(f);
    var field := StoredField(f, e, s);
    if field >= f.Top() {
      PackedIsSum(f, sign, f.Top(), 0);
      OrZero(Or(sign, f.Infinity()));
    } else {
      RoundingBits(f, s);
      var fraction := And(Shr(s, EXTRA), f.Implicit() - 1);
      DivModFacts(s / 8, f.Implicit());
      PackedIsSum(f, sign, field, fraction);
      MulMono(field + 1, f.Top(), f.Implicit());
      Distribute(field, 1, f.Implicit());
      LowBit(f, sign, Unrounded(f, e, s));
    }
  }

  /** Rounding at a gap of `p` an exact value between `q` and `q + 1` of them, by its eighths. */
  lemma RoundedNeighbour(f: Layout, base: nat, p: nat, q: nat, num: nat, den: nat, m: nat)
    requires den > 0 && p > 0
    requires base < f.Infinity() && Value(f, base) == q * p && Gap(f, base) == p
    requires q * 8 * den <= num <= (q * 8 + 8) * den
    requires m == if num < (q * 8 + 4) * den then base
                  else if num > (q * 8 + 4) * den then base + 1
                  else base + base % 2
    ensures Nearest(f, num * p, 8 * den, m)
  {
    hide Value, Gap, Nearest, Pow2;
    ValueNext(f, base);
    NeighbourProducts(num, den, q, p, Value(f, base), Value(f, base + 1), num * p, 8 * den);
    ChosenIsNearest(f, num * p, 8 * den, base, m);
  }

  /** The value of the packed pattern before rounding is the significand without its rounding bits. */
  lemma BaseValue(f: Layout, e: nat, s: nat)
    requires e >= 1 && Packable(f, e, s)
    ensures Value(f, Unrounded(f, e, s)) == s / 8 * Pow2(e - 1)
    ensures Gap(f, Unrounded(f, e, s)) == Pow2(e - 1)
  {
    LeadingFacts(f);
    var h, q := f.Implicit(), s / 8;
    DivModFacts(q, h);
    if s < 8 * h { ModSmall(q, h); } else { DivModUnique(q, h, 1, q - h); }
    ValueOf(f, if s < 8 * h then 0 else e, q % h);
    assert e == 1 ==> Pow2(e - 1) == 1;
  }

  lemma PastTheRange(f: Layout, e: nat, num: nat, den: nat, q: nat)
    requires e >= f.Top() && den > 0 && q * den <= num && 8 * f.Implicit() <= q
    ensures e >= 1 && Nearest(f, num * Pow2(e - 1), 8 * den, f.Infinity())
  {
    LayoutFacts(f);
    ValueOf(f, f.Top(), 0);
    Pow2Mono(f.Top() - 1, e - 1);
    OverflowProducts(num, den, q, f.Implicit(), Pow2(e - 1), Pow2(f.Top() - 1));
    InfinityIsNearest(f, num * Pow2(e - 1), 8 * den);
  }

  lemma EighthsAbove(s: nat, h: nat)
    requires s >= 8 * h
    ensures s / 8 * 8 >= 8 * h
  {
  }

  /** `round_and_pack` rounds correctly: with the exponent above the bottom, the exact value is the exact
    * significand at that exponent, whatever the sticky bit stood for.
    */
  lemma PackIsNearest(f: Layout, sign: nat, e: nat, s: nat, num: nat, den: nat)
    requires sign == 0 || sign == f.SignBit()
    requires e >= 1 && den > 0 && Agrees(s, num, den, 4) && Packable(f, e, s)
    ensures RoundAndPack(f, sign, e, s) >= sign
    ensures Nearest(f, num * Pow2(e - 1), 8 * den, RoundAndPack(f, sign, e, s) - sign)
  {
    hide Value, Gap, Nearest, RoundAndPack, Unrounded, Pow2, Agrees;
    LeadingFacts(f);
    LayoutFacts(f);
    PackArithmetic(f, sign, e, s);
    Eighths(s, num, den);
    if StoredField(f, e, s) >= f.Top() {
      EighthsAbove(s, f.Implicit());
      PastTheRange(f, e, num, den, s / 8 * 8);
    } else {
      BaseValue(f, e, s);
      RoundedNeighbour(f, Unrounded(f, e, s), Pow2(e - 1), s / 8, num, den, RoundAndPack(f, sign, e, s) - sign);
    }
  }

  /** The exponent above the bottom of the range, and how far below it. */
  function Above(e: int): nat { if e > 1 then e - 1 else 0 }

  function Below(e: int): nat { if e < 1 then 1 - e else 0 }

  /** `round_and_pack` rounds correctly at every exponent its callers hand it: what falls off in reaching the
    * bottom of the range falls into the sticky bit, so there is no second rounding.
    */
  lemma PackRounds(f: Layout, sign: nat, e: int, s: nat, num: nat, den: nat)
    requires sign == 0 || sign == f.SignBit()
    requires den > 0 && Agrees(s, num, den, 4) && Packable(f, e, s)
    ensures RoundAndPack(f, sign, e, s) >= sign
    ensures Nearest(f, num * Pow2(Above(e)), 8 * den * Pow2(Below(e)), RoundAndPack(f, sign, e, s) - sign)
  {
    hide Value, Nearest, Agrees, Packed, And, Or;
    assert Pow2(0) == 1;
    if e >= 1 {
      PackIsNearest(f, sign, e, s, num, den);
    } else {
      var d := Pow2(1 - e);
      SunkenAgrees(f, e, s, num, den, d);
      var t := RoundOdd(s, d);
      LeadingFacts(f);
      ShiftDownRoundsToOdd(f.word, s, 1 - e);
      PackIsNearest(f, sign, 1, t, num, den * d);
      MulAssoc(8, den, d);
    }
  }

  lemma LeadingEven(f: Layout)
    ensures Pow2(Leading(f)) % 2 == 0
  {
    SixteenOrMore(Leading(f));
  }

  /** The significand shifted down to where the subnormals are. */
  lemma SunkenAgrees(f: Layout, e: int, s: nat, num: nat, den: nat, d: nat)
    requires e <= 0 && den > 0 && Agrees(s, num, den, 4) && Packable(f, e, s) && d == Pow2(1 - e)
    ensures den * d > 0
    ensures Agrees(RoundOdd(s, d), num, den * d, 4)
    ensures RoundOdd(s, d) < Pow2(Leading(f))
  {
    hide Agrees, RoundOdd, Pow2, Leading;
    Pow2Next(-e);
    LeadingEven(f);
    HalvedBelow(s, d, Pow2(Leading(f)));
    RoundOddAfterFour(s, num, den, d);
  }

  /** The same with the exact value written as any quotient. */
  lemma PackRoundsTo(f: Layout, sign: nat, e: int, s: nat, num: nat, den: nat, num': nat, den': nat)
    requires sign == 0 || sign == f.SignBit()
    requires den > 0 && den' > 0 && Agrees(s, num, den, 4) && Packable(f, e, s)
    requires Shl(num, Above(e)) * den' == num' * Shl(8 * den, Below(e))
    ensures RoundAndPack(f, sign, e, s) >= sign
    ensures Nearest(f, num', den', RoundAndPack(f, sign, e, s) - sign)
  {
    hide Value, Nearest, Agrees, RoundAndPack, Pow2;
    PackRounds(f, sign, e, s, num, den);
    MulStrict(0, 8 * den, Pow2(Below(e)));
    NearestSameQuotient(f, num * Pow2(Above(e)), 8 * den * Pow2(Below(e)), num', den',
                        RoundAndPack(f, sign, e, s) - sign);
  }

  lemma OverflowProducts(num: nat, den: nat, q: nat, h: nat, p: nat, p': nat)
    requires q * den <= num && 8 * h <= q && p' <= p
    ensures num * p >= h * p' * (8 * den)
  {
    MulMono(8 * h, q, den);
    MulMono(8 * h * den, num, p');
    MulMono(p', p, num);
    assert 8 * h * den * p' == h * p' * (8 * den) by { Rearrange(h, den, p'); }
  }

  lemma Rearrange(h: nat, den: nat, p: nat)
    ensures 8 * h * den * p == h * p * (8 * den)
  {
    assert 8 * h * den * p == 8 * (h * den * p);
    assert h * p * (8 * den) == 8 * (h * p * den);
    assert h * den * p == h * p * den;
  }

  lemma NeighbourProducts(num: nat, den: nat, q: nat, p: nat, v: nat, v': nat, x: nat, d: nat)
    requires p > 0 && q * 8 * den <= num <= (q * 8 + 8) * den
    requires v == q * p && v' == v + p && x == num * p && d == 8 * den
    ensures v * d <= x <= v' * d
    ensures 2 * x < v * d + v' * d <==> num < (q * 8 + 4) * den
    ensures 2 * x > v * d + v' * d <==> num > (q * 8 + 4) * den
  {
    var y := q * 8 * den;
    Distribute(q * 8, 8, den);
    Distribute(q * 8, 4, den);
    NeighbourTerms(q, p, den);
    Distribute(y, 8 * den, p);
    Distribute(y, 4 * den, p);
    MulMono(y, num, p);
    MulMono(num, y + 8 * den, p);
    MulStrict(num, y + 4 * den, p);
    MulStrict(y + 4 * den, num, p);
  }

  lemma NeighbourTerms(q: nat, p: nat, den: nat)
    ensures q * p * (8 * den) == q * 8 * den * p
    ensures (q * p + p) * (8 * den) == q * 8 * den * p + 8 * den * p
    ensures 2 * (4 * den * p) == 8 * den * p
  {
    Distribute(q * p, p, 8 * den);
    MulAssoc(q, p, 8 * den);
    MulAssoc(q, 8 * den, p);
    assert q * (8 * den) == q * 8 * den;
  }

  /** Without its leading one a significand loses its exponent, which `round_and_pack` takes for a subnormal's. */
  lemma ExponentIsDropped(f: Layout, sign: nat, e: nat, s: nat)
    requires sign == 0 || sign == f.SignBit()
    requires e >= 1 && 8 <= s < Pow2(Leading(f))
    ensures RoundAndPack(f, sign, e, s) >= sign
    ensures var m := RoundAndPack(f, sign, e, s) - sign;
      m == (if s % 8 < 4 then s / 8 else if s % 8 > 4 then s / 8 + 1 else s / 8 + s / 8 % 2) && m < f.Implicit() + 1
  {
    assert RoundAndPack(f, sign, e, s) == RoundAndPack(f, sign, 1, s);
    hide RoundAndPack, Pow2;
    LeadingFacts(f);
    LayoutFacts(f);
    PackArithmetic(f, sign, 1, s);
    ModSmall(s / 8, f.Implicit());
    assert 0 * f.Implicit() == 0;
  }

  lemma SmallValues(f: Layout, m: nat)
    requires m <= f.Implicit() + 1
    ensures Value(f, m) == m && m <= f.Infinity()
  {
    LayoutFacts(f);
    assert Pow2(0) == 1;
    MulMono(3, f.Top(), f.Implicit());
    if m < f.Implicit() {
      ValueOf(f, 0, m);
    } else {
      ValueOf(f, 1, m - f.Implicit());
    }
  }

  /** A pattern that stands for a number below its exact value by a unit or more is not the nearest. */
  lemma TooFarBelow(f: Layout, num: nat, den: nat, m: nat)
    requires den > 0 && m <= f.Implicit() && (m + 1) * den <= num
    ensures !Nearest(f, num, den, m)
  {
    hide Value;
    SmallValues(f, m);
    SmallValues(f, m + 1);
    Distribute(m, 1, den);
    assert Distance(f, num, den, m + 1) < Distance(f, num, den, m);
  }

  lemma DroppedIsBelow(s: nat, p: nat, m: nat)
    requires s >= 8 && p >= 2
    requires m == if s % 8 < 4 then s / 8 else if s % 8 > 4 then s / 8 + 1 else s / 8 + s / 8 % 2
    ensures (m + 1) * 8 <= Times(s, p)
  {
    MulMono(2, p, s);
  }

  lemma AtLeastTwo(e: nat)
    requires e > 1
    ensures Pow2(e - 1) >= 2
  {
  }

  /** So the precondition is what the rounding needs, and no more: from one unit up, an exact significand is packed
    * into the nearest pattern exactly where it meets it.
    */
  lemma PackNeedsItsLeadingOne(f: Layout, sign: nat, e: nat, s: nat)
    requires sign == 0 || sign == f.SignBit()
    requires e >= 1 && 8 <= s < 2 * Pow2(Leading(f))
    ensures RoundAndPack(f, sign, e, s) >= sign
    ensures Nearest(f, Times(s, Pow2(e - 1)), 8, RoundAndPack(f, sign, e, s) - sign) <==> Packable(f, e, s)
  {
    hide Agrees, RoundAndPack, Nearest, Pow2;
    if Packable(f, e, s) {
      ExactAgreement(s);
      PackIsNearest(f, sign, e, s, s, 1);
    } else {
      ExponentIsDropped(f, sign, e, s);
      AtLeastTwo(e);
      var m := RoundAndPack(f, sign, e, s) - sign;
      DroppedIsBelow(s, Pow2(e - 1), m);
      TooFarBelow(f, Times(s, Pow2(e - 1)), 8, m);
    }
  }

  lemma ExactAgreement(s: nat)
    ensures Agrees(s, s, 1, 4)
  {
  }
}
