/** float.c and double.c: arithmetic on patterns in integers, at any format whose significands fit a word.
  *
  * Every sum, difference and shift up is cut to the word it is made in, by `Modulo`, so that each contract also
  * says that nothing the answer needs was ever cut off.
  */
module SoftFloat {
  import opened Powers
  import opened Bits
  import opened Integers
  import opened Sticky
  import opened Rounding
  import opened Packing
  import opened Ieee
  import opened Addition
  import opened Multiplication
  import opened Words

  /** The operands of an addition in order of magnitude, as the proofs in `Addition` want them. */
  lemma AddOperands(f: Layout, left: nat, right: nat)
    requires IsPattern(f, left) && IsPattern(f, right)
    requires IsFinite(f, left) && IsFinite(f, right) && !IsZero(f, left) && !IsZero(f, right)
    ensures var (a, ea) := Unpack(f, left);
      var (b, eb) := Unpack(f, right);
      && MagnitudeValue(f, left) == Shl(a, ea - 1)
      && MagnitudeValue(f, right) == Shl(b, eb - 1)
      && if eb > ea || (eb == ea && b > a) then Operands(f, b, a, eb, ea) else Operands(f, a, b, ea, eb)
  {
    UnpackValue(f, left);
    UnpackValue(f, right);
  }

  /** A packed magnitude is a pattern with the sign it was packed with. */
  lemma PackedPattern(f: Layout, sign: nat, num: nat, den: nat, result: nat)
    requires sign == 0 || sign == f.SignBit()
    requires sign <= result && Nearest(f, num, den, result - sign)
    ensures HasSignAndNearest(f, sign != 0, num, den, result)
  {
    LayoutFacts(f);
    SignAndMagnitude(f, sign, result - sign);
  }

  /** A finite operand is its own sum with a zero. */
  lemma SumWithZero(f: Layout, p: nat)
    requires IsFinite(f, p)
    ensures Nearest(f, MagnitudeValue(f, p), 1, Magnitude(f, p))
    ensures MagnitudeValue(f, p) == 0 <==> IsZero(f, p)
  {
    Classes(f, p);
    LayoutFacts(f);
    NearestExact(f, 1, Magnitude(f, p));
    ValueOf(f, 0, 0);
    ValueMono(f, 0, Magnitude(f, p));
    ValueMono(f, Magnitude(f, p), 0);
  }

  method AddAligned(f: Layout, sign: nat, larger: nat, smaller: nat, high: int, ghost a: nat, ghost b: nat,
            ghost low: int)
    returns (result: nat)
    requires sign == 0 || sign == f.SignBit()
    requires Operands(f, a, b, high, low) && larger == 8 * a && smaller == Aligned(b, high, low)
    ensures HasSignAndNearest(f, sign != 0, Shl(a, high - 1) + Shl(b, low - 1), 1, result)
  {
    hide Value, Nearest, RoundAndPack, ShiftDown, Aligned, Magnitude, RoundOdd, Pow2, Shl, Modulo;
    Pow2First();
    Pow2Next(Leading(f));
    LeadingFacts(f);
    SumAgrees(f, a, b, high, low);
    var exponent := high;
    var significand := Modulo(f.word, larger + smaller);
    ShiftDownRoundsToOdd(f.word, significand, 1);
    if significand >= Pow2(Leading(f) + 1) {
      significand := ShiftDown(f.word, significand, 1);
      exponent := exponent + 1;
    }
    SumRounds(f, sign, a, b, high, low, exponent, significand);
    result := RoundAndPack(f, sign, exponent, significand);
    PackedPattern(f, sign, Shl(a, high - 1) + Shl(b, low - 1), 1, result);
  }

  /** The loop that brings the leading one of a difference back up. */
  method Raise(f: Layout, start: nat, high: int, ghost a: nat, ghost b: nat, ghost low: int)
    returns (significand: nat, exponent: int)
    requires Operands(f, a, b, high, low)
    requires 0 < start == 8 * a - Aligned(b, high, low)
    ensures Raising(f, a, b, high, low, exponent, significand)
    ensures significand >= Pow2(Leading(f)) || exponent == 1
  {
    hide Aligned, RoundOdd;
    LeadingFacts(f);
    DifferenceAgrees(f, a, b, high, low);
    significand, exponent := start, high;
    assert Pow2(0) == 1;
    while significand < Pow2(Leading(f)) && exponent > 1
      invariant Raising(f, a, b, high, low, exponent, significand)
      decreases exponent
    {
      RaisingTurns(f, a, b, high, low, exponent, significand);
      significand := Modulo(f.word, significand * 2);
      exponent := exponent - 1;
    }
  }

  method SubtractAligned(f: Layout, sign: nat, larger: nat, smaller: nat, high: int, ghost a: nat, ghost b: nat,
            ghost low: int)
    returns (result: nat)
    requires sign == 0 || sign == f.SignBit()
    requires Operands(f, a, b, high, low) && larger == 8 * a && smaller == Aligned(b, high, low)
    ensures Shl(a, high - 1) >= Shl(b, low - 1)
    ensures if Shl(a, high - 1) == Shl(b, low - 1) then result == 0
            else HasSignAndNearest(f, sign != 0, Shl(a, high - 1) - Shl(b, low - 1), 1, result)
  {
    hide Value, Nearest, RoundAndPack, Aligned, Magnitude, RoundOdd, Raising;
    LeadingFacts(f);
    DifferencePositive(f, a, b, high, low);
    AlignedBelow(f, a, b, high, low);
    var significand := Modulo(f.word, larger - smaller);
    if significand == 0 { return 0; }
    var exponent;
    significand, exponent := Raise(f, significand, high, a, b, low);
    DifferenceRounds(f, sign, a, b, high, low, exponent, significand);
    result := RoundAndPack(f, sign, exponent, significand);
    PackedPattern(f, sign, Shl(a, high - 1) - Shl(b, low - 1), 1, result);
  }

  /** Two finite operands that are not zero. */
  method AddNonzero(f: Layout, left: nat, right: nat) returns (result: nat)
    requires IsPattern(f, left) && IsPattern(f, right)
    requires IsFinite(f, left) && IsFinite(f, right) && !IsZero(f, left) && !IsZero(f, right)
    ensures RoundsTo(f, SignedValue(f, left) + SignedValue(f, right), 1,
                     Negative(f, left) && Negative(f, right), result)
  {
    hide Value, Nearest, RoundAndPack, Unpack, ShiftDown, Magnitude;
    AddOperands(f, left, right);
    LeadingFacts(f);
    var (leftSignificand, leftExponent) := Unpack(f, left);
    var (rightSignificand, rightExponent) := Unpack(f, right);
    ghost var a, b := leftSignificand, rightSignificand;
    var larger, smaller := Modulo(f.word, leftSignificand * 8), Modulo(f.word, rightSignificand * 8);
    var high, low := leftExponent, rightExponent;
    var sign := SignOf(f, left);
    var opposite := Negative(f, left) != Negative(f, right);
    if rightExponent > leftExponent || (rightExponent == leftExponent && smaller > larger) {
      larger, smaller := smaller, larger;
      high, low := rightExponent, leftExponent;
      sign := SignOf(f, right);
      a, b := rightSignificand, leftSignificand;
    }
    ShiftDownRoundsToOdd(f.word, smaller, high - low);
    smaller := ShiftDown(f.word, smaller, high - low);
    if opposite {
      result := SubtractAligned(f, sign, larger, smaller, high, a, b, low);
      NearestZero(f, 1);
      SignAndMagnitude(f, 0, 0);
    } else {
      result := AddAligned(f, sign, larger, smaller, high, a, b, low);
    }
  }

  /** The special operands and the zeros, and then the rest. */
  method Add(f: Layout, left: nat, right: nat) returns (result: nat)
    requires IsPattern(f, left) && IsPattern(f, right)
    ensures IsPattern(f, result) && IsSum(f, left, right, result)
  {
    hide Value, Nearest, Unpack, Magnitude, Quiet, EmptyNan, IsNan, IsInfinite, IsQuieted, IsEmptyNan;
    SpecialResults(f, left);
    SpecialResults(f, right);
    if IsNan(f, left) { return Quiet(f, left); }
    if IsNan(f, right) { return Quiet(f, right); }
    if IsInfinite(f, left) {
      if IsInfinite(f, right) && Negative(f, left) != Negative(f, right) { return EmptyNan(f); }
      return left;
    }
    if IsInfinite(f, right) { return right; }

    var (leftSignificand, leftExponent) := Unpack(f, left);
    var (rightSignificand, rightExponent) := Unpack(f, right);
    UnpackValue(f, left);
    UnpackValue(f, right);
    SumWithZero(f, left);
    SumWithZero(f, right);
    if leftSignificand == 0 && rightSignificand == 0 {
      result := if Negative(f, left) && Negative(f, right) then f.SignBit() else 0;
      SignAndMagnitude(f, result, 0);
    } else if leftSignificand == 0 {
      result := right;
    } else if rightSignificand == 0 {
      result := left;
    } else {
      result := AddNonzero(f, left, right);
    }
  }

  /** Subtraction is addition with the sign of the right operand flipped, unless it is not a number. */
  method Subtract(f: Layout, left: nat, right: nat) returns (result: nat)
    requires IsPattern(f, left) && IsPattern(f, right)
    ensures IsPattern(f, result) && IsDifference(f, left, right, result)
  {
    hide Value, Nearest, Quiet, EmptyNan, IsQuieted, IsEmptyNan;
    FlippedSign(f, right);
    result := Add(f, left, if IsNan(f, right) then right else Flipped(f, right));
  }

  lemma NearestZero(f: Layout, den: nat)
    requires den > 0
    ensures Nearest(f, 0, den, 0)
  {
    ValueOf(f, 0, 0);
    NearestExact(f, den, 0);
  }

  /** `normalize`: the leading one brought up, and the exponent down with it, past zero if need be. */
  method Normalize(f: Layout, significand: nat, exponent: int, ghost v: nat) returns (s: nat, e: int)
    requires 0 < significand < 2 * f.Implicit() && Scaled(v, significand, exponent)
    ensures Normal(f, s) && Scaled(v, s, e) && e <= exponent
  {
    hide Scaled;
    LeadingFacts(f);
    s, e := significand, exponent;
    ShrZero(s, f.Implicit());
    while Shr(s, f.fraction) == 0
      invariant 0 < s < 2 * f.Implicit() && Scaled(v, s, e) && e <= exponent
      invariant Shr(s, f.fraction) == 0 <==> s < f.Implicit()
      decreases 2 * f.Implicit() - s
    {
      ScaledTurns(v, s, e);
      s, e := Modulo(f.word, s * 2), e - 1;
      ShrZero(s, f.Implicit());
    }
  }

  lemma ShrZero(s: nat, h: nat)
    requires h > 0
    ensures s / h == 0 <==> s < h
  {
    DivBounds(s, h);
    if s / h == 0 { Distribute(0, 1, h); } else { MulMono(1, s / h, h); }
  }

  /** `unpack` and `normalize` of a finite operand that is not zero. */
  method UnpackNormal(f: Layout, p: nat) returns (s: nat, e: int)
    requires IsFinite(f, p) && !IsZero(f, p)
    ensures MagnitudeValue(f, p) > 0 && Normal(f, s) && Scaled(MagnitudeValue(f, p), s, e)
  {
    hide Value, Unpack;
    UnpackValue(f, p);
    SumWithZero(f, p);
    var (significand, exponent) := Unpack(f, p);
    assert Scaled(MagnitudeValue(f, p), significand, exponent) by { ShlNone(MagnitudeValue(f, p)); }
    s, e := Normalize(f, significand, exponent, MagnitudeValue(f, p));
  }

  /** The bits of a product of significands that are wanted: out of one word where the product fits one, as it
    * does in float.c, and out of two words in double.c.
    */
  function ProductSignificand(f: Layout, a: Word, b: Word): nat
    requires f.word == 64
  {
    if 2 * f.fraction + 2 <= f.word then ShiftDown(f.word, Modulo(f.word, a * b), f.fraction - EXTRA)
    else
      var product := MultiplyWords(a, b);
      ShiftDownToWord(product.high, product.low, f.fraction - EXTRA)
  }

  lemma NormalIsWord(f: Layout, a: nat)
    requires f.word == 64 && Normal(f, a)
    ensures a < WORD
  {
    Pow2Words();
    Pow2Mono(f.fraction + 1, 64);
  }

  lemma ProductSignificandIsSticky(f: Layout, a: Word, b: Word)
    requires f.word == 64 && Normal(f, a) && Normal(f, b)
    ensures ProductSignificand(f, a, b) == RoundOdd(a * b, Pow2(f.fraction - EXTRA))
  {
    Pow2Words();
    hide RoundOdd, ShiftDown, MultiplyWords, ShiftDownToWord, Pow2;
    ProductRange(f, a, b);
    if 2 * f.fraction + 2 <= f.word {
      Pow2Mono(2 * f.fraction + 2, 64);
      ShiftDownRoundsToOdd(f.word, a * b, f.fraction - EXTRA);
    } else {
      var product := MultiplyWords(a, b);
      MultiplyWordsIsExact(a, b);
      HighBelow(f, product);
      ShiftDownToWordIsExact(product, f.fraction - EXTRA);
    }
  }

  lemma HighBelow(f: Layout, product: Wide)
    requires f.word == 64 && Number(product) < Pow2(2 * f.fraction + 2)
    ensures product.high < Pow2(f.fraction - EXTRA)
  {
    Pow2Words();
    Pow2Mono(2 * f.fraction + 2, f.fraction - EXTRA + 64);
    Pow2Add(f.fraction - EXTRA, 64);
    MulStrict(product.high, Pow2(f.fraction - EXTRA), WORD);
  }

  method MultiplyNonzero(f: Layout, sign: nat, left: nat, right: nat) returns (result: nat)
    requires f.word == 64
    requires sign == 0 || sign == f.SignBit()
    requires IsFinite(f, left) && IsFinite(f, right) && !IsZero(f, left) && !IsZero(f, right)
    ensures HasSignAndNearest(f, sign != 0, Times(MagnitudeValue(f, left), MagnitudeValue(f, right)), f.One(), result)
  {
    hide Value, Nearest, RoundAndPack, Scaled, RoundOdd, ProductSignificand, ShiftDown, Magnitude;
    var a, ea := UnpackNormal(f, left);
    var b, eb := UnpackNormal(f, right);
    NormalIsWord(f, a);
    NormalIsWord(f, b);
    ProductSignificandIsSticky(f, a, b);
    result := PackProduct(f, sign, ProductSignificand(f, a, b), ea + eb - f.Bias(),
      MagnitudeValue(f, left), a, ea, MagnitudeValue(f, right), b, eb);
  }

  /** The shift that brings a product with one bit more down, and the rounding. */
  method PackProduct(f: Layout, sign: nat, product: nat, base: int,
                     ghost v: nat, ghost a: nat, ghost ea: int, ghost w: nat, ghost b: nat, ghost eb: int)
    returns (result: nat)
    requires sign == 0 || sign == f.SignBit()
    requires Normal(f, a) && Normal(f, b) && Scaled(v, a, ea) && Scaled(w, b, eb)
    requires product == RoundOdd(a * b, Pow2(f.fraction - EXTRA)) && base == ea + eb - f.Bias()
    ensures HasSignAndNearest(f, sign != 0, Times(v, w), f.One(), result)
  {
    assert Pow2(1) == 2 && Pow2(Leading(f) + 1) == 2 * Pow2(Leading(f));
    hide Value, Nearest, RoundAndPack, Scaled, RoundOdd, ShiftDown, Magnitude, Pow2;
    ProductRange(f, a, b);
    LeadingFacts(f);
    var significand, exponent := product, base;
    ShiftDownRoundsToOdd(f.word, significand, 1);
    if significand >= Pow2(Leading(f) + 1) {
      significand := ShiftDown(f.word, significand, 1);
      exponent := exponent + 1;
    }
    ProductRounds(f, sign, v, a, ea, w, b, eb, exponent, significand);
    result := RoundAndPack(f, sign, exponent, significand);
    PackedPattern(f, sign, Times(v, w), f.One(), result);
  }

  method Multiply(f: Layout, left: nat, right: nat) returns (result: nat)
    requires f.word == 64
    requires IsPattern(f, left) && IsPattern(f, right)
    ensures IsPattern(f, result) && IsProduct(f, left, right, result)
  {
    hide Value, Nearest, Quiet, EmptyNan, IsNan, IsInfinite, Magnitude, IsQuieted, IsEmptyNan, IsInfinityOf, IsZeroOf;
    SpecialResults(f, left);
    SpecialResults(f, right);
    SignedSpecials(f, Negative(f, left) != Negative(f, right));
    if IsNan(f, left) { return Quiet(f, left); }
    if IsNan(f, right) { return Quiet(f, right); }
    var sign := if Negative(f, left) != Negative(f, right) then f.SignBit() else 0;
    if IsInfinite(f, left) || IsInfinite(f, right) {
      if IsZero(f, left) || IsZero(f, right) { return EmptyNan(f); }
      return sign + f.Infinity();
    }
    if IsZero(f, left) || IsZero(f, right) {
      result := sign;
      ZeroProduct(f, left, right);
      SignAndMagnitude(f, sign, 0);
    } else {
      result := MultiplyNonzero(f, sign, left, right);
    }
  }

  lemma ZeroProduct(f: Layout, left: nat, right: nat)
    requires IsZero(f, left) || IsZero(f, right)
    ensures Nearest(f, Times(MagnitudeValue(f, left), MagnitudeValue(f, right)), f.One(), 0)
  {
    ValueOf(f, 0, 0);
    NearestZero(f, f.One());
  }

  /** One turn of the division loop. */
  method DivideTurn(f: Layout, b: nat, quotient: nat, carried: nat, ghost a: nat, ghost turns: nat)
    returns (quotient': nat, carried': nat)
    requires Normal(f, a) && Normal(f, b) && turns < Leading(f) + 2
    requires Dividing(a, b, turns, quotient, carried)
    ensures Dividing(a, b, turns + 1, quotient', carried')
  {
    hide Dividing;
    DividingTurns(a, b, turns, quotient, carried);
    DividingFits(f, a, b, turns, quotient, carried);
    quotient', carried' := Modulo(f.word, quotient * 2), carried;
    if carried' >= b {
      carried' := Modulo(f.word, carried' - b);
      quotient' := Or(quotient', 1);
    }
    carried' := Modulo(f.word, carried' * 2);
  }

  /** The division loop, one quotient bit a turn. */
  method DivideSignificands(f: Layout, a: nat, b: nat) returns (quotient: nat, remains: bool)
    requires Normal(f, a) && Normal(f, b)
    ensures quotient == Shl(a, Leading(f) + 1) / b
    ensures remains <==> Shl(a, Leading(f) + 1) % b != 0
    ensures Pow2(Leading(f)) <= quotient < 4 * Pow2(Leading(f))
  {
    var remainder := a;
    quotient := 0;
    assert Dividing(a, b, 0, 0, a) by { ShlNone(a); }
    assert Pow2(Leading(f) + 2) == 4 * Pow2(Leading(f));
    LayoutFacts(f);
    hide Dividing, Shl, Pow2;
    for at := 0 to Leading(f) + 2
      invariant Dividing(a, b, at, quotient, remainder)
    {
      quotient, remainder := DivideTurn(f, b, quotient, remainder, a, at);
    }
    QuotientRange(f, a, b, Leading(f) + 2, quotient, remainder);
    Divided(a, b, Leading(f) + 1, quotient, remainder);
    remains := remainder != 0;
  }

  /** Nothing is cut off in a turn of the division. */
  lemma DividingFits(f: Layout, a: nat, b: nat, turns: nat, quotient: nat, carried: nat)
    requires Normal(f, a) && Normal(f, b) && turns < Leading(f) + 2
    requires Dividing(a, b, turns, quotient, carried)
    ensures 2 * quotient + 1 < Pow2(f.word) && 2 * carried < Pow2(f.word)
    ensures Or(2 * quotient, 1) == 2 * quotient + 1
  {
    assert carried < 2 * b;
    hide Dividing;
    QuotientRange(f, a, b, turns, quotient, carried);
    Pow2Mono(turns, Leading(f) + 1);
    LeadingFacts(f);
    OrBit(2 * quotient, 1);
  }

  method DivideNonzero(f: Layout, sign: nat, left: nat, right: nat) returns (result: nat)
    requires sign == 0 || sign == f.SignBit()
    requires IsFinite(f, left) && IsFinite(f, right) && !IsZero(f, left) && !IsZero(f, right)
    ensures MagnitudeValue(f, right) > 0
    ensures HasSignAndNearest(f, sign != 0, Times(MagnitudeValue(f, left), f.One()), MagnitudeValue(f, right), result)
  {
    hide Value, Scaled, Shl, Magnitude, Nearest;
    var a, ea := UnpackNormal(f, left);
    var b, eb := UnpackNormal(f, right);
    var quotient, remains := DivideSignificands(f, a, b);
    result := PackQuotient(f, sign, quotient, remains, ea - eb + f.Bias() - 1,
      MagnitudeValue(f, left), a, ea, MagnitudeValue(f, right), b, eb);
  }

  /** The sticky bit, the shift that brings a quotient with one bit more down, and the rounding. */
  method PackQuotient(f: Layout, sign: nat, raw: nat, remains: bool, base: int,
                      ghost v: nat, ghost a: nat, ghost ea: int, ghost w: nat, ghost b: nat, ghost eb: int)
    returns (result: nat)
    requires sign == 0 || sign == f.SignBit()
    requires w > 0 && b > 0 && Scaled(v, a, ea) && Scaled(w, b, eb)
    requires raw == Shl(a, Leading(f) + 1) / b && (remains <==> Shl(a, Leading(f) + 1) % b != 0)
    requires Pow2(Leading(f)) <= raw < 4 * Pow2(Leading(f)) && base == ea - eb + f.Bias() - 1
    ensures HasSignAndNearest(f, sign != 0, Times(v, f.One()), w, result)
  {
    assert Pow2(1) == 2 && Pow2(Leading(f) + 1) == 2 * Pow2(Leading(f));
    hide Value, Nearest, RoundAndPack, Scaled, Magnitude, Pow2, Shl;
    LeadingFacts(f);
    var quotient, exponent := raw, base;
    var sticky := if remains then 1 else 0;
    if quotient >= Pow2(Leading(f) + 1) {
      sticky := Or(sticky, And(quotient, 1));
      quotient := Shr(quotient, 1);
      exponent := exponent + 1;
    }
    StickyQuotient(raw, remains, quotient, sticky, raw >= 2 * Pow2(Leading(f)));
    StuckRange(Pow2(Leading(f)), raw, remains);
    StuckHalved(raw, remains);
    StuckIsRoundOdd(Shl(a, Leading(f) + 1), b);
    QuotientRounds(f, sign, v, a, ea, w, b, eb, exponent, Or(quotient, sticky));
    result := RoundAndPack(f, sign, exponent, Or(quotient, sticky));
    PackedPattern(f, sign, Times(v, f.One()), w, result);
  }

  lemma StickyQuotient(raw: nat, remains: bool, quotient: nat, sticky: nat, halved: bool)
    requires quotient == if halved then raw / 2 else raw
    requires sticky == if halved then Or(if remains then 1 else 0, And(raw, 1)) else if remains then 1 else 0
    ensures Or(quotient, sticky) == if halved then Stuck(raw / 2, remains || raw % 2 == 1) else Stuck(raw, remains)
  {
    assert Pow2(1) == 2;
    AndMask(raw, 1);
    OrBit(if remains then 1 else 0, And(raw, 1));
    OrBit(quotient, sticky);
  }

  method Divide(f: Layout, left: nat, right: nat) returns (result: nat)
    requires IsPattern(f, left) && IsPattern(f, right)
    ensures IsPattern(f, result) && IsQuotient(f, left, right, result)
  {
    hide Value, Nearest, Quiet, EmptyNan, IsNan, IsInfinite, Magnitude, IsQuieted, IsEmptyNan, IsInfinityOf, IsZeroOf;
    SpecialResults(f, left);
    SpecialResults(f, right);
    SignedSpecials(f, Negative(f, left) != Negative(f, right));
    if IsNan(f, left) { return Quiet(f, left); }
    if IsNan(f, right) { return Quiet(f, right); }
    var sign := if Negative(f, left) != Negative(f, right) then f.SignBit() else 0;
    if IsInfinite(f, left) {
      if IsInfinite(f, right) { return EmptyNan(f); }
      return sign + f.Infinity();
    }
    if IsInfinite(f, right) { return sign; }
    if IsZero(f, right) {
      if IsZero(f, left) { return EmptyNan(f); }
      return sign + f.Infinity();
    }
    if IsZero(f, left) {
      result := sign;
      ZeroQuotient(f, left, right);
      SignAndMagnitude(f, sign, 0);
    } else {
      result := DivideNonzero(f, sign, left, right);
    }
  }

  lemma ZeroQuotient(f: Layout, left: nat, right: nat)
    requires IsZero(f, left) && !IsZero(f, right) && IsFinite(f, right)
    ensures Nearest(f, Times(MagnitudeValue(f, left), f.One()), MagnitudeValue(f, right), 0)
  {
    ValueOf(f, 0, 0);
    SumWithZero(f, right);
    NearestZero(f, MagnitudeValue(f, right));
  }
}
