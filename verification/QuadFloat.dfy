/** quad.c: binary128 with every significand and every pattern a pair of words. Each operation meets the contract
  * that SoftFloat's meets on one number, with the pair read as that number.
  */
module QuadFloat {
  import opened Powers
  import opened Bits
  import opened Sticky
  import opened Rounding
  import opened Packing
  import opened Ieee
  import opened Addition
  import opened Multiplication
  import opened Comparison
  import opened Words
  import SoftFloat

  const SIGN_HIGH: Word := 0x8000_0000_0000_0000
  const IMPLICIT_HIGH: Word := 0x0001_0000_0000_0000
  const QUIET_HIGH: Word := 0x0000_8000_0000_0000
  const EMPTY_NAN_HIGH: Word := 0x7FFF_8000_0000_0000
  const LEADING_HIGH: Word := 0x0008_0000_0000_0000
  const TOP: nat := 32767
  const BIAS: nat := 16383

  lemma QuadPowers()
    ensures Pow2(48) == IMPLICIT_HIGH && Pow2(63) == SIGN_HIGH && Pow2(64) == WORD
  {
    Pow2Words();
    Pow2Add(32, 16);
    assert Pow2(64) == 2 * Pow2(63);
  }

  // What the fields of the format are as words.
  lemma QuadFacts()
    ensures Quad.Implicit() == IMPLICIT_HIGH * WORD
    ensures Quad.SignBit() == SIGN_HIGH * WORD
    ensures Quad.Top() == TOP && Quad.Bias() == BIAS
    ensures Pow2(Leading(Quad)) == LEADING_HIGH * WORD
    ensures Pow2(Quad.fraction - 1) == QUIET_HIGH * WORD
    ensures Pow2(128) == WORD * WORD
  {
    QuadPowers();
    assert Pow2(14) == 16384;
    Pow2Add(48, 64);
    Pow2Add(47, 64);
    Pow2Add(51, 64);
    Pow2Add(63, 64);
    Pow2Add(64, 64);
  }

  function SignWord(p: Wide): Word { if p.high >= SIGN_HIGH then SIGN_HIGH else 0 }

  function MagnitudeWide(p: Wide): Wide {
    Wide(if p.high >= SIGN_HIGH then p.high - SIGN_HIGH else p.high, p.low)
  }

  function ExponentWide(p: Wide): nat { p.high / IMPLICIT_HIGH % (TOP + 1) }

  function FractionWide(p: Wide): Wide { Wide(p.high % IMPLICIT_HIGH, p.low) }

  predicate IsNanWide(p: Wide) { ExponentWide(p) == TOP && !IsZeroWide(FractionWide(p)) }

  predicate IsInfiniteWide(p: Wide) { ExponentWide(p) == TOP && IsZeroWide(FractionWide(p)) }

  lemma SignRefines(p: Wide)
    ensures IsPattern(Quad, Number(p))
    ensures Negative(Quad, Number(p)) <==> p.high >= SIGN_HIGH
    ensures SignOf(Quad, Number(p)) == SignWord(p) * WORD
    ensures Number(MagnitudeWide(p)) == Magnitude(Quad, Number(p))
  {
    QuadFacts();
    hide Pow2;
    DivModUnique(Number(p), SIGN_HIGH * WORD, if p.high >= SIGN_HIGH then 1 else 0, Number(MagnitudeWide(p)));
  }

  lemma FieldsDivide(p: Wide)
    ensures Number(MagnitudeWide(p)) / (IMPLICIT_HIGH * WORD) == ExponentWide(p)
    ensures Number(MagnitudeWide(p)) % (IMPLICIT_HIGH * WORD) == Number(FractionWide(p))
  {
    var m := MagnitudeWide(p);
    DivModUnique(Number(m), IMPLICIT_HIGH * WORD, m.high / IMPLICIT_HIGH, Number(FractionWide(p)));
  }

  /** The fields of the pair are the fields of the number. */
  lemma FieldsRefine(p: Wide)
    ensures ExponentWide(p) == ExponentOf(Quad, Number(p))
    ensures Number(FractionWide(p)) == FractionOf(Quad, Number(p))
    ensures IsNanWide(p) <==> IsNan(Quad, Number(p))
    ensures IsInfiniteWide(p) <==> IsInfinite(Quad, Number(p))
  {
    QuadFacts();
    SignRefines(p);
    FieldsDivide(p);
    hide Pow2, ExponentOf, FractionOf, SignWord, MagnitudeWide, ExponentWide, Magnitude;
  }

  function UnpackWide(p: Wide): (Wide, int) {
    var stored, fraction := ExponentWide(p), FractionWide(p);
    if stored == 0 then (fraction, 1) else (Wide(OrWord(fraction.high, IMPLICIT_HIGH), fraction.low), stored)
  }

  lemma UnpackRefines(p: Wide)
    ensures var (s, e) := UnpackWide(p);
      Unpack(Quad, Number(p)) == (Number(s), e)
  {
    QuadFacts();
    QuadPowers();
    hide Pow2, ExponentOf, FractionOf, Or, ExponentWide;
    FieldsRefine(p);
    UnpackFields(Quad, Number(p));
    OrSum(IMPLICIT_HIGH, FractionWide(p).high, 48);
  }

  function InfinityWide(sign: Word): Wide { Wide(OrWord(sign, TOP * IMPLICIT_HIGH), 0) }

  function QuietWide(p: Wide): Wide { Wide(OrWord(p.high, QUIET_HIGH), p.low) }

  lemma QuietRefines(p: Wide)
    ensures Number(QuietWide(p)) == Quiet(Quad, Number(p))
    ensures Number(Wide(EMPTY_NAN_HIGH, 0)) == EmptyNan(Quad)
  {
    QuadFacts();
    Pow2Words();
    OrHigh(p.high, p.low, QUIET_HIGH, 64);
  }

  /** `round_and_pack` on a pair: the increment is the two-word add. */
  function RoundAndPackWide(sign: Word, exponent: int, significand: Wide): Wide {
    var s := if exponent <= 0 then ShiftDownWide(significand, 1 - exponent) else significand;
    var e := if exponent <= 0 || significand.high < LEADING_HIGH then 0 else exponent;
    if e >= TOP then InfinityWide(sign)
    else
      var below := s.low % 8;
      var kept := DropLow(s, EXTRA);
      var result := Wide(OrWord(OrWord(sign, Cut(e * IMPLICIT_HIGH)), kept.high % IMPLICIT_HIGH), kept.low);
      if below > 4 then AddWide(result, Wide(0, 1))
      else if below == 4 then AddWide(result, Wide(0, result.low % 2))
      else result
  }

  lemma PackedWords(sign: Word, e: nat, fraction: Word)
    requires sign == 0 || sign == SIGN_HIGH
    requires e <= TOP && fraction < IMPLICIT_HIGH
    ensures Cut(e * IMPLICIT_HIGH) == e * IMPLICIT_HIGH
    ensures OrWord(OrWord(sign, Cut(e * IMPLICIT_HIGH)), fraction) == sign + e * IMPLICIT_HIGH + fraction
    ensures OrWord(sign, Cut(e * IMPLICIT_HIGH)) == sign + e * IMPLICIT_HIGH
    ensures e * IMPLICIT_HIGH + fraction < SIGN_HIGH
  {
    hide Pow2, Or, Cut;
    QuadPowers();
    var field := e * IMPLICIT_HIGH;
    assert field < SIGN_HIGH;
    assert sign % SIGN_HIGH == 0 && (sign + field) % IMPLICIT_HIGH == 0;
    OrSum(sign, field, 63);
    OrSum(sign + field, fraction, 48);
  }

  /** The words of the result before it is rounded. */
  function KeptWords(sign: Word, field: nat, s: Wide): Wide {
    var kept := DropLow(s, EXTRA);
    Wide(OrWord(OrWord(sign, Cut(field * IMPLICIT_HIGH)), kept.high % IMPLICIT_HIGH), kept.low)
  }

  lemma UnroundedWords(sign: Word, field: nat, s: Wide)
    requires sign == 0 || sign == SIGN_HIGH
    requires field < TOP
    ensures Number(KeptWords(sign, field, s))
          == sign * WORD + (field * (IMPLICIT_HIGH * WORD) + Number(s) / 8 % (IMPLICIT_HIGH * WORD))
    ensures KeptWords(sign, field, s).high < sign + TOP * IMPLICIT_HIGH
    ensures s.low % 8 == Number(s) % 8
  {
    assert Pow2(3) == 8;
    hide Pow2, DropLow, Cut;
    DropLowIsExact(s, EXTRA);
    var kept := DropLow(s, EXTRA);
    PackedWords(sign, field, kept.high % IMPLICIT_HIGH);
    DivModUnique(Number(kept), IMPLICIT_HIGH * WORD, kept.high / IMPLICIT_HIGH,
          Number(Wide(kept.high % IMPLICIT_HIGH, kept.low)));
  }

  lemma IncrementedWords(sign: Word, e: nat, s: Wide)
    requires sign == 0 || sign == SIGN_HIGH
    requires e >= 1 && FieldWide(e, s) < TOP
    ensures var result := KeptWords(sign, FieldWide(e, s), s);
      result.high < sign + TOP * IMPLICIT_HIGH ==>
        Number(RoundAndPackWide(sign, e, s))
        == Number(result) + if s.low % 8 < 4 then 0 else if s.low % 8 > 4 then 1 else Number(result) % 2
  {
    hide OrWord, DropLow, Cut, AddWide, Number;
    var result := KeptWords(sign, FieldWide(e, s), s);
    if result.high < sign + TOP * IMPLICIT_HIGH {
      Increment(result, 1);
      Increment(result, result.low % 2);
    }
  }

  lemma BitBelow(w: Wide, bit: Word)
    requires w.high < WORD - 1 && bit <= 1
    ensures Number(Wide(0, bit)) == bit && 0 <= Number(w) && Number(w) + bit < WORD * WORD
  {
  }

  lemma Increment(w: Wide, bit: Word)
    requires w.high < WORD - 1 && bit <= 1
    ensures Number(AddWide(w, Wide(0, bit))) == Number(w) + bit
    ensures Number(w) % 2 == w.low % 2
  {
    hide AddWide, Number;
    AddIsExact(w, Wide(0, bit));
    ParityOfWide(w);
    BitBelow(w, bit);
  }

  // The stored exponent field, decided on one word.
  function FieldWide(e: nat, s: Wide): nat { if s.high < LEADING_HIGH then 0 else e }

  lemma FieldRefines(e: nat, s: Wide)
    ensures StoredField(Quad, e, Number(s)) == FieldWide(e, s)
    ensures Unrounded(Quad, e, Number(s))
          == FieldWide(e, s) * (IMPLICIT_HIGH * WORD) + Number(s) / 8 % (IMPLICIT_HIGH * WORD)
  {
    QuadFacts();
  }

  /** The rounding of a pair is the rounding of the number. */
  lemma PackArithmeticWide(sign: Word, e: nat, s: Wide)
    requires sign == 0 || sign == SIGN_HIGH
    requires e >= 1 && Packable(Quad, e, Number(s))
    ensures Number(RoundAndPackWide(sign, e, s)) == RoundAndPack(Quad, sign * WORD, e, Number(s))
  {
    QuadFacts();
    hide Pow2, RoundAndPack, Unrounded, StoredField, KeptWords;
    FieldRefines(e, s);
    PackArithmetic(Quad, sign * WORD, e, Number(s));
    if FieldWide(e, s) < TOP {
      hide RoundAndPackWide;
      UnroundedWords(sign, FieldWide(e, s), s);
      IncrementedWords(sign, e, s);
      EvenSign(sign, Unrounded(Quad, e, Number(s)));
    } else {
      PackedWords(sign, TOP, 0);
    }
  }

  lemma EvenSign(sign: Word, base: nat)
    ensures (sign * WORD + base) % 2 == base % 2
  {
  }

  /** Below the range packing is packing what has been shifted down, at the bottom of it. */
  lemma SunkenWords(sign: Word, exponent: int, s: Wide, t: Wide)
    requires exponent <= 0 && t == ShiftDownWide(s, 1 - exponent) && t.high < LEADING_HIGH
    ensures RoundAndPackWide(sign, exponent, s) == RoundAndPackWide(sign, 1, t)
  {
    hide ShiftDownWide, DropLow, AddWide, OrWord, Cut;
  }

  lemma SunkenNumber(sign: nat, exponent: int, s: nat, t: nat)
    requires exponent <= 0 && t == ShiftDown(128, s, 1 - exponent) < Pow2(Leading(Quad))
    ensures RoundAndPack(Quad, sign, exponent, s) == RoundAndPack(Quad, sign, 1, t)
  {
    hide ShiftDown, Packed, And, Or, Pow2;
  }

  lemma RoundAndPackRefines(sign: Word, exponent: int, s: Wide)
    requires sign == 0 || sign == SIGN_HIGH
    requires Packable(Quad, exponent, Number(s))
    ensures Number(RoundAndPackWide(sign, exponent, s)) == RoundAndPack(Quad, sign * WORD, exponent, Number(s))
  {
    hide RoundAndPack, RoundAndPackWide, Pow2, RoundOdd, ShiftDown, ShiftDownWide, Number;
    if exponent >= 1 {
      PackArithmeticWide(sign, exponent, s);
    } else {
      var t := ShiftDownWide(s, 1 - exponent);
      SunkenWide(s, 1 - exponent);
      SunkenWords(sign, exponent, s, t);
      SunkenNumber(sign * WORD, exponent, Number(s), Number(t));
      PackArithmeticWide(sign, 1, t);
    }
  }

  lemma SunkenWide(s: Wide, down: nat)
    requires down >= 1 && Number(s) < 2 * Pow2(Leading(Quad))
    ensures var t := ShiftDownWide(s, down);
      && Number(t) == ShiftDown(128, Number(s), down) < Pow2(Leading(Quad))
      && t.high < LEADING_HIGH
  {
    QuadFacts();
    Pow2Mono(1, down);
    assert Pow2(1) == 2;
    hide Pow2, RoundOdd, ShiftDown, ShiftDownWide;
    ShiftDownIsExact(s, down);
    ShiftDownRoundsToOdd(128, Number(s), down);
    HalvedBelow(Number(s), Pow2(down), LEADING_HIGH * WORD);
  }

  /** Where the significands of the arithmetic leave room above them in the pair. */
  lemma Room(w: Wide)
    requires Number(w) < 32 * Quad.Implicit()
    ensures Number(ShiftUp(w, 1)) == 2 * Number(w)
    ensures Number(w) < 2 * Quad.Implicit() ==> Number(ShiftUp(w, EXTRA)) == 8 * Number(w)
    ensures w.high < LEADING_HIGH <==> Number(w) < Pow2(Leading(Quad))
    ensures w.high >= LEADING_HIGH * 2 <==> Number(w) >= 2 * Pow2(Leading(Quad))
  {
    QuadFacts();
    assert Pow2(1) == 2 && Pow2(3) == 8;
    hide Pow2, ShiftUp;
    ShiftUpIsExact(w, 1);
    ShiftUpIsExact(w, 3);
  }

  /** A significand with its leading one where it belongs or one place above, brought down where it is above. */
  method BringDown(raw: Wide, base: int) returns (s: Wide, e: int)
    requires Number(raw) < 32 * Quad.Implicit()
    ensures if Number(raw) < 2 * Pow2(Leading(Quad)) then s == raw && e == base
            else Number(s) == RoundOdd(Number(raw), 2) && e == base + 1
  {
    assert Pow2(1) == 2;
    hide RoundOdd, Pow2, ShiftDownWide;
    Room(raw);
    ShiftDownIsExact(raw, 1);
    s, e := raw, base;
    if s.high >= LEADING_HIGH * 2 {
      s := ShiftDownWide(s, 1);
      e := e + 1;
    }
  }

  lemma SumIsExact(left: Wide, right: Wide)
    requires Number(left) + Number(right) < 32 * Quad.Implicit()
    ensures Number(AddWide(left, right)) == Number(left) + Number(right)
  {
    QuadFacts();
    AddIsExact(left, right);
  }

  method AddAligned(sign: Word, larger: Wide, smaller: Wide, high: int, ghost a: nat, ghost b: nat, ghost low: int)
    returns (result: Wide)
    requires sign == 0 || sign == SIGN_HIGH
    requires Operands(Quad, a, b, high, low) && Number(larger) == 8 * a && Number(smaller) == Aligned(b, high, low)
    ensures HasSignAndNearest(Quad, sign != 0, Shl(a, high - 1) + Shl(b, low - 1), 1, Number(result))
  {
    hide Number, Value, Nearest, RoundAndPack, Aligned, RoundOdd, Pow2, Shl, Packable, HasSignAndNearest, AddWide;
    QuadFacts();
    LeadingFacts(Quad);
    SumAgrees(Quad, a, b, high, low);
    SumIsExact(larger, smaller);
    var significand, exponent := BringDown(AddWide(larger, smaller), high);
    SumRounds(Quad, sign * WORD, a, b, high, low, exponent, Number(significand));
    result := PackWide(sign, exponent, significand, Shl(a, high - 1) + Shl(b, low - 1), 1);
  }

  /** `round_and_pack` where the number it stands for is known to round correctly. */
  method PackWide(sign: Word, exponent: int, significand: Wide, ghost num: nat, ghost den: nat) returns (result: Wide)
    requires sign == 0 || sign == SIGN_HIGH
    requires Packable(Quad, exponent, Number(significand))
    requires var r := RoundAndPack(Quad, sign * WORD, exponent, Number(significand));
      r >= sign * WORD && Nearest(Quad, num, den, r - sign * WORD)
    ensures HasSignAndNearest(Quad, sign != 0, num, den, Number(result))
  {
    QuadFacts();
    hide Value, Nearest, RoundAndPack, RoundAndPackWide;
    RoundAndPackRefines(sign, exponent, significand);
    result := RoundAndPackWide(sign, exponent, significand);
    SoftFloat.PackedPattern(Quad, sign * WORD, num, den, Number(result));
  }

  /** The loop that brings the leading one of a difference back up. */
  method Raise(start: Wide, high: int, ghost a: nat, ghost b: nat, ghost low: int)
    returns (significand: Wide, exponent: int)
    requires Operands(Quad, a, b, high, low)
    requires 0 < Number(start) == 8 * a - Aligned(b, high, low)
    ensures Raising(Quad, a, b, high, low, exponent, Number(significand))
    ensures Number(significand) >= 8 * Quad.Implicit() || exponent == 1
  {
    LeadingFacts(Quad);
    DifferenceAgrees(Quad, a, b, high, low);
    significand, exponent := start, high;
    assert Raising(Quad, a, b, high, low, exponent, Number(significand)) by { assert Pow2(0) == 1; }
    Room(significand);
    hide Aligned, RoundOdd, ShiftUp, Pow2;
    while significand.high < LEADING_HIGH && exponent > 1
      invariant Raising(Quad, a, b, high, low, exponent, Number(significand))
      invariant significand.high < LEADING_HIGH <==> Number(significand) < 8 * Quad.Implicit()
      decreases exponent
    {
      RaisingTurns(Quad, a, b, high, low, exponent, Number(significand));
      Room(significand);
      significand := ShiftUp(significand, 1);
      exponent := exponent - 1;
      Room(significand);
    }
  }

  method SubtractAligned(sign: Word, larger: Wide, smaller: Wide, high: int, ghost a: nat, ghost b: nat, ghost low: int)
    returns (result: Wide)
    requires sign == 0 || sign == SIGN_HIGH
    requires Operands(Quad, a, b, high, low) && Number(larger) == 8 * a && Number(smaller) == Aligned(b, high, low)
    ensures Shl(a, high - 1) >= Shl(b, low - 1)
    ensures if Shl(a, high - 1) == Shl(b, low - 1) then Number(result) == 0
            else HasSignAndNearest(Quad, sign != 0, Shl(a, high - 1) - Shl(b, low - 1), 1, Number(result))
  {
    hide Value, Nearest, RoundAndPack, RoundAndPackWide, Aligned, RoundOdd, Raising, SubtractWide, Shl, Pow2,
         Packable, HasSignAndNearest;
    QuadFacts();
    DifferencePositive(Quad, a, b, high, low);
    AlignedBelow(Quad, a, b, high, low);
    var significand := SubtractWide(larger, smaller);
    SubtractIsExact(larger, smaller);
    if IsZeroWide(significand) { return Wide(0, 0); }
    var exponent;
    significand, exponent := Raise(significand, high, a, b, low);
    DifferenceRounds(Quad, sign * WORD, a, b, high, low, exponent, Number(significand));
    result := PackWide(sign, exponent, significand, Shl(a, high - 1) - Shl(b, low - 1), 1);
  }

  /** The smaller operand lined up, and the sum or the difference. */
  method AddOrdered(sign: Word, opposite: bool, larger: Wide, smaller: Wide, high: int, low: int, ghost a: nat,
            ghost b: nat)
    returns (result: Wide)
    requires sign == 0 || sign == SIGN_HIGH
    requires Operands(Quad, a, b, high, low) && Number(larger) == 8 * a && Number(smaller) == 8 * b
    ensures opposite ==> Shl(a, high - 1) >= Shl(b, low - 1)
    ensures if !opposite then HasSignAndNearest(Quad, sign != 0, Shl(a, high - 1) + Shl(b, low - 1), 1, Number(result))
            else if Shl(a, high - 1) == Shl(b, low - 1) then Number(result) == 0
            else HasSignAndNearest(Quad, sign != 0, Shl(a, high - 1) - Shl(b, low - 1), 1, Number(result))
  {
    hide Value, Nearest, ShiftDownWide, RoundOdd, Shl, Pow2;
    ShiftDownIsExact(smaller, high - low);
    var aligned := ShiftDownWide(smaller, high - low);
    if opposite {
      result := SubtractAligned(sign, larger, aligned, high, a, b, low);
    } else {
      result := AddAligned(sign, larger, aligned, high, a, b, low);
    }
  }

  /** Everything the pair of words of an operand says about the number it stands for. */
  lemma OperandRefines(p: Wide)
    ensures IsPattern(Quad, Number(p))
    ensures Negative(Quad, Number(p)) <==> p.high >= SIGN_HIGH
    ensures IsNanWide(p) <==> IsNan(Quad, Number(p))
    ensures IsInfiniteWide(p) <==> IsInfinite(Quad, Number(p))
    ensures IsNan(Quad, Number(p)) ==> IsQuieted(Quad, Number(p), Number(QuietWide(p)))
    ensures IsEmptyNan(Quad, Number(Wide(EMPTY_NAN_HIGH, 0)))
    ensures Number(MagnitudeWide(p)) == Magnitude(Quad, Number(p))
    ensures IsZeroWide(UnpackWide(p).0) <==> IsZero(Quad, Number(p))
    ensures IsZeroWide(MagnitudeWide(p)) <==> IsZero(Quad, Number(p))
    ensures IsFinite(Quad, Number(p)) ==>
      && Nearest(Quad, MagnitudeValue(Quad, Number(p)), 1, Magnitude(Quad, Number(p)))
      && (MagnitudeValue(Quad, Number(p)) == 0 <==> IsZero(Quad, Number(p)))
  {
    hide Value, Nearest, Pow2, UnpackWide, Unpack, MagnitudeWide, ExponentWide, FractionWide, ExponentOf,
         FractionOf, Magnitude, IsNanWide, IsInfiniteWide, IsNan, IsInfinite, Quiet, QuietWide, EmptyNan, IsQuieted,
         IsEmptyNan;
    SignRefines(p);
    FieldsRefine(p);
    QuietRefines(p);
    SpecialResults(Quad, Number(p));
    UnpackRefines(p);
    UnpackValue(Quad, Number(p));
    OrderIsNumeric(UnpackWide(p).0, Wide(0, 0));
    OrderIsNumeric(MagnitudeWide(p), Wide(0, 0));
    if IsFinite(Quad, Number(p)) { SoftFloat.SumWithZero(Quad, Number(p)); }
  }

  /** The sign a sum of two signed magnitudes has, and its magnitude. */
  lemma SignedSum(l: nat, r: nat, result: nat, sign: nat, larger: nat, smaller: nat)
    requires IsPattern(Quad, l) && IsPattern(Quad, r)
    requires larger > 0 && smaller > 0
    requires (SignOf(Quad, l) == sign && MagnitudeValue(Quad, l) == larger && MagnitudeValue(Quad, r) == smaller)
      || (SignOf(Quad, r) == sign && MagnitudeValue(Quad, r) == larger && MagnitudeValue(Quad, l) == smaller)
    requires if Negative(Quad, l) == Negative(Quad, r)
             then HasSignAndNearest(Quad, sign != 0, larger + smaller, 1, result)
             else if larger == smaller then result == 0
             else larger > smaller && HasSignAndNearest(Quad, sign != 0, larger - smaller, 1, result)
    ensures RoundsTo(Quad, SignedValue(Quad, l) + SignedValue(Quad, r), 1,
                     Negative(Quad, l) && Negative(Quad, r), result)
  {
    hide Value, Nearest, Magnitude, Pow2;
    SoftFloat.NearestZero(Quad, 1);
    SignAndMagnitude(Quad, 0, 0);
  }

  /** The operands of an addition put in order. */
  method AddNonzero(left: Wide, right: Wide) returns (result: Wide)
    requires IsFinite(Quad, Number(left)) && IsFinite(Quad, Number(right))
    requires !IsZero(Quad, Number(left)) && !IsZero(Quad, Number(right))
    ensures var l, r := Number(left), Number(right);
      RoundsTo(Quad, SignedValue(Quad, l) + SignedValue(Quad, r), 1,
               Negative(Quad, l) && Negative(Quad, r), Number(result))
  {
    hide Value, Nearest, Unpack, UnpackWide, Magnitude, ShiftUp, Shl, Pow2, RoundsTo, HasSignAndNearest,
         SignedValue, IsNan, IsInfinite, Number, IsPattern, IsZero;
    OperandRefines(left);
    OperandRefines(right);
    SignRefines(left);
    SignRefines(right);
    UnpackRefines(left);
    UnpackRefines(right);
    SoftFloat.AddOperands(Quad, Number(left), Number(right));
    var (leftSignificand, leftExponent) := UnpackWide(left);
    var (rightSignificand, rightExponent) := UnpackWide(right);
    Room(leftSignificand);
    Room(rightSignificand);
    var larger, smaller := ShiftUp(leftSignificand, EXTRA), ShiftUp(rightSignificand, EXTRA);
    var opposite := (left.high >= SIGN_HIGH) != (right.high >= SIGN_HIGH);
    OrderIsNumeric(smaller, larger);
    ghost var l, r := Number(left), Number(right);
    if rightExponent > leftExponent || (rightExponent == leftExponent && Exceeds(smaller, larger)) {
      result := AddOrdered(SignWord(right), opposite, smaller, larger, rightExponent, leftExponent,
        Number(rightSignificand), Number(leftSignificand));
      PositiveUnits(l, r);
      SignedSum(l, r, Number(result), SignWord(right) * WORD, MagnitudeValue(Quad, r), MagnitudeValue(Quad, l));
    } else {
      result := AddOrdered(SignWord(left), opposite, larger, smaller, leftExponent, rightExponent,
        Number(leftSignificand), Number(rightSignificand));
      PositiveUnits(l, r);
      SignedSum(l, r, Number(result), SignWord(left) * WORD, MagnitudeValue(Quad, l), MagnitudeValue(Quad, r));
    }
  }

  lemma PositiveUnits(l: nat, r: nat)
    requires IsFinite(Quad, l) && IsFinite(Quad, r) && !IsZero(Quad, l) && !IsZero(Quad, r)
    ensures MagnitudeValue(Quad, l) > 0 && MagnitudeValue(Quad, r) > 0
  {
    SoftFloat.SumWithZero(Quad, l);
    SoftFloat.SumWithZero(Quad, r);
  }

  // A zero with a sign, as a pair.
  function SignedZero(negative: bool): Wide { Wide(if negative then SIGN_HIGH else 0, 0) }

  lemma ZeroResult(negative: bool)
    ensures var z := Number(SignedZero(negative));
      IsPattern(Quad, z) && Magnitude(Quad, z) == 0 && (Negative(Quad, z) <==> negative)
  {
    QuadFacts();
    SignAndMagnitude(Quad, Number(SignedZero(negative)), 0);
  }

  /** A sum in which an operand is zero is the other operand. */
  lemma SumWithAZero(l: nat, r: nat, result: nat)
    requires IsPattern(Quad, l) && IsPattern(Quad, r)
    requires IsFinite(Quad, l) && IsFinite(Quad, r)
    requires if IsZero(Quad, l) && IsZero(Quad, r)
             then IsPattern(Quad, result) && Magnitude(Quad, result) == 0
                  && (Negative(Quad, result) <==> Negative(Quad, l) && Negative(Quad, r))
             else if IsZero(Quad, l) then result == r
             else IsZero(Quad, r) && result == l
    ensures RoundsTo(Quad, SignedValue(Quad, l) + SignedValue(Quad, r), 1,
                     Negative(Quad, l) && Negative(Quad, r), result)
  {
    hide Value, Nearest, Magnitude, IsNan, IsInfinite, Pow2;
    SoftFloat.SumWithZero(Quad, l);
    SoftFloat.SumWithZero(Quad, r);
    SoftFloat.NearestZero(Quad, 1);
  }

  /** Two finite operands. */
  method AddFinite(left: Wide, right: Wide) returns (result: Wide)
    requires IsFinite(Quad, Number(left)) && IsFinite(Quad, Number(right))
    ensures var l, r := Number(left), Number(right);
      RoundsTo(Quad, SignedValue(Quad, l) + SignedValue(Quad, r), 1,
               Negative(Quad, l) && Negative(Quad, r), Number(result))
  {
    hide *;
    OperandRefines(left);
    OperandRefines(right);
    var leftSignificand, rightSignificand := UnpackWide(left).0, UnpackWide(right).0;
    if !IsZeroWide(leftSignificand) && !IsZeroWide(rightSignificand) {
      result := AddNonzero(left, right);
      return;
    }
    if IsZeroWide(leftSignificand) && IsZeroWide(rightSignificand) {
      ZeroResult(left.high >= SIGN_HIGH && right.high >= SIGN_HIGH);
      result := SignedZero(left.high >= SIGN_HIGH && right.high >= SIGN_HIGH);
    } else if IsZeroWide(leftSignificand) {
      result := right;
    } else {
      result := left;
    }
    SumWithAZero(Number(left), Number(right), Number(result));
  }

  method Add(left: Wide, right: Wide) returns (result: Wide)
    ensures IsSum(Quad, Number(left), Number(right), Number(result))
  {
    hide Number, Value, Nearest, UnpackWide, Magnitude, MagnitudeWide, Quiet, QuietWide, EmptyNan, IsNan,
         IsInfinite, Pow2, IsNanWide, IsInfiniteWide, RoundsTo, SignedValue, Negative, IsZero, IsZeroWide,
         IsPattern, IsQuieted, IsEmptyNan;
    OperandRefines(left);
    OperandRefines(right);
    if IsNanWide(left) { return QuietWide(left); }
    if IsNanWide(right) { return QuietWide(right); }
    if IsInfiniteWide(left) {
      if IsInfiniteWide(right) && (left.high >= SIGN_HIGH) != (right.high >= SIGN_HIGH) {
        return Wide(EMPTY_NAN_HIGH, 0);
      }
      return left;
    }
    if IsInfiniteWide(right) { return right; }
    result := AddFinite(left, right);
  }

  /** Subtraction is addition with the sign word of the right operand flipped, unless it is not a number. */
  function FlippedWide(p: Wide): Wide {
    Wide(if p.high >= SIGN_HIGH then p.high - SIGN_HIGH else p.high + SIGN_HIGH, p.low)
  }

  lemma FlippedRefines(p: Wide)
    ensures Number(FlippedWide(p)) == Flipped(Quad, Number(p))
  {
    QuadFacts();
    SignRefines(p);
  }

  method Subtract(left: Wide, right: Wide) returns (result: Wide)
    ensures IsDifference(Quad, Number(left), Number(right), Number(result))
  {
    hide Number, Value, Nearest, IsQuieted, IsEmptyNan, FlippedWide, IsNanWide, SignedValue, Negative, IsNan,
         IsInfinite;
    OperandRefines(right);
    FlippedRefines(right);
    FlippedSign(Quad, Number(right));
    OperandRefines(left);
    result := Add(left, if IsNanWide(right) then right else FlippedWide(right));
    DifferenceFromSum(Number(left), Number(right), Number(result));
  }

  /** Adding the flipped operand is subtracting the operand. */
  lemma DifferenceFromSum(l: nat, r: nat, result: nat)
    requires IsPattern(Quad, l) && IsPattern(Quad, r)
    requires IsSum(Quad, l, if IsNan(Quad, r) then r else Flipped(Quad, r), result)
    ensures IsDifference(Quad, l, r, result)
  {
    hide Value, Nearest, IsQuieted, IsEmptyNan, IsNan, IsInfinite, Magnitude, IsPattern;
    FlippedSign(Quad, r);
  }

  /** The loop that brings the leading one of a subnormal up. */
  method Normalize(start: Wide, exponent: int, ghost v: nat) returns (s: Wide, e: int)
    requires 0 < Number(start) < 2 * Quad.Implicit() && Scaled(v, Number(start), exponent)
    ensures Normal(Quad, Number(s)) && Scaled(v, Number(s), e)
  {
    QuadFacts();
    hide Scaled, ShiftUp, Pow2;
    s, e := start, exponent;
    while s.high / IMPLICIT_HIGH == 0
      invariant 0 < Number(s) < 2 * Quad.Implicit() && Scaled(v, Number(s), e)
      decreases 2 * Quad.Implicit() - Number(s)
    {
      ScaledTurns(v, Number(s), e);
      Room(s);
      s, e := ShiftUp(s, 1), e - 1;
    }
  }

  lemma UnpackScaled(p: Wide, v: nat)
    requires IsFinite(Quad, Number(p)) && !IsZero(Quad, Number(p)) && v == MagnitudeValue(Quad, Number(p))
    ensures v > 0 && 0 < Number(UnpackWide(p).0) < 2 * Quad.Implicit()
    ensures Scaled(v, Number(UnpackWide(p).0), UnpackWide(p).1)
  {
    hide Number, UnpackWide, Unpack, Value, Magnitude, ExponentOf, FractionOf, Shl, Pow2;
    UnpackRefines(p);
    UnpackValue(Quad, Number(p));
    SoftFloat.SumWithZero(Quad, Number(p));
    ScaledFromUnits(v, Number(UnpackWide(p).0), UnpackWide(p).1);
  }

  lemma ScaledFromUnits(v: nat, s: nat, e: int)
    requires e >= 1 && v == s * Pow2(e - 1)
    ensures Scaled(v, s, e)
  {
    ShlNone(v);
  }

  method UnpackNormal(p: Wide) returns (s: Wide, e: int)
    requires IsFinite(Quad, Number(p)) && !IsZero(Quad, Number(p))
    ensures var v := MagnitudeValue(Quad, Number(p));
      v > 0 && Normal(Quad, Number(s)) && Scaled(v, Number(s), e)
  {
    hide *;
    ghost var v := MagnitudeValue(Quad, Number(p));
    UnpackScaled(p, v);
    s, e := Normalize(UnpackWide(p).0, UnpackWide(p).1, v);
  }

  /** The bits of the four-word product that are wanted. */
  method ProductSignificand(a: Wide, b: Wide) returns (s: Wide)
    requires Normal(Quad, Number(a)) && Normal(Quad, Number(b))
    ensures Number(s) == RoundOdd(Times(Number(a), Number(b)), Pow2(Quad.fraction - EXTRA))
  {
    ProductRange(Quad, Number(a), Number(b));
    hide RoundOdd, ShiftDownProduct, Number, Pow2;
    var product := new Word[4];
    MultiplyWide(a, b, product);
    TopWordBelow(product[..]);
    ShiftDownProductIsExact(product[..], Quad.fraction - EXTRA - 64);
    s := ShiftDownProduct(product[..], Quad.fraction - EXTRA - 64);
  }

  lemma TopWordBelow(p: seq<Word>)
    requires |p| == 4 && Number4(p) < Pow2(226)
    ensures p[3] < Pow2(45)
  {
    ThreeWordsUp();
    Pow2Mono(34, 45);
    hide Pow2;
    MulStrict(p[3], Pow2(34), WORD * WORD * WORD);
  }

  lemma ThreeWordsUp()
    ensures Pow2(226) == Pow2(34) * (WORD * WORD * WORD)
  {
    Pow2Words();
    Pow2Add(64, 64);
    Pow2Add(128, 64);
    Pow2Add(34, 192);
  }

  method PackProduct(sign: Word, product: Wide, base: int,
                     ghost v: nat, ghost a: nat, ghost ea: int, ghost w: nat, ghost b: nat, ghost eb: int)
    returns (result: Wide)
    requires sign == 0 || sign == SIGN_HIGH
    requires Normal(Quad, a) && Normal(Quad, b) && Scaled(v, a, ea) && Scaled(w, b, eb)
    requires Number(product) == RoundOdd(Times(a, b), Pow2(Quad.fraction - EXTRA)) && base == ea + eb - Quad.Bias()
    ensures HasSignAndNearest(Quad, sign != 0, Times(v, w), Quad.One(), Number(result))
  {
    hide Number, Value, Nearest, RoundAndPack, Scaled, Normal, RoundOdd, Pow2, Packable, HasSignAndNearest;
    QuadFacts();
    LeadingFacts(Quad);
    ProductRange(Quad, a, b);
    var significand, exponent := BringDown(product, base);
    ProductRounds(Quad, sign * WORD, v, a, ea, w, b, eb, exponent, Number(significand));
    result := PackWide(sign, exponent, significand, Times(v, w), Quad.One());
  }

  method MultiplyNonzero(sign: Word, left: Wide, right: Wide) returns (result: Wide)
    requires sign == 0 || sign == SIGN_HIGH
    requires IsFinite(Quad, Number(left)) && IsFinite(Quad, Number(right))
    requires !IsZero(Quad, Number(left)) && !IsZero(Quad, Number(right))
    ensures var v, w := MagnitudeValue(Quad, Number(left)), MagnitudeValue(Quad, Number(right));
      HasSignAndNearest(Quad, sign != 0, Times(v, w), Quad.One(), Number(result))
  {
    hide *;
    var a, ea := UnpackNormal(left);
    var b, eb := UnpackNormal(right);
    var product := ProductSignificand(a, b);
    QuadFacts();
    result := PackProduct(sign, product, ea + eb - BIAS,
      MagnitudeValue(Quad, Number(left)), Number(a), ea, MagnitudeValue(Quad, Number(right)), Number(b), eb);
  }

  /** The number of a sign word in front of a zero or an infinity. */
  lemma SignedResults(negative: bool)
    ensures var sign := if negative then SIGN_HIGH else 0;
      && Number(Wide(sign, 0)) == SignedBy(Quad, negative, 0)
      && IsZeroOf(Quad, negative, Number(Wide(sign, 0)))
      && IsInfinityOf(Quad, negative, Number(InfinityWide(sign)))
  {
    SignedSpecials(Quad, negative);
    QuadFacts();
    PackedWords(if negative then SIGN_HIGH else 0, TOP, 0);
    hide OrWord, Pow2, Cut;
  }

  lemma ZeroHasSign(negative: bool, num: nat, den: nat)
    requires den > 0 && num == 0
    ensures HasSignAndNearest(Quad, negative, num, den, SignedBy(Quad, negative, 0))
  {
    SoftFloat.NearestZero(Quad, den);
    SignAndMagnitude(Quad, if negative then Quad.SignBit() else 0, 0);
  }

  method Multiply(left: Wide, right: Wide) returns (result: Wide)
    ensures IsProduct(Quad, Number(left), Number(right), Number(result))
  {
    OperandRefines(left);
    OperandRefines(right);
    hide Number, Value, Nearest, MagnitudeWide, Magnitude, Quiet, QuietWide, EmptyNan, IsNan, IsInfinite,
         Pow2, IsNanWide, IsInfiniteWide, InfinityWide, SignedBy, IsZero, IsZeroWide, HasSignAndNearest,
         MagnitudeValue, IsQuieted, IsEmptyNan, IsInfinityOf, IsZeroOf;
    if IsNanWide(left) { return QuietWide(left); }
    if IsNanWide(right) { return QuietWide(right); }
    var negative := (left.high >= SIGN_HIGH) != (right.high >= SIGN_HIGH);
    var sign := if negative then SIGN_HIGH else 0;
    SignedResults(negative);
    var leftZero, rightZero := IsZeroWide(MagnitudeWide(left)), IsZeroWide(MagnitudeWide(right));
    if IsInfiniteWide(left) || IsInfiniteWide(right) {
      if leftZero || rightZero { return Wide(EMPTY_NAN_HIGH, 0); }
      return InfinityWide(sign);
    }
    if leftZero || rightZero {
      ZeroHasSign(negative, Times(MagnitudeValue(Quad, Number(left)), MagnitudeValue(Quad, Number(right))), Quad.One());
      return Wide(sign, 0);
    }
    result := MultiplyNonzero(sign, left, right);
  }

  lemma StuckOfEven(n: nat)
    ensures Stuck(2 * n, true) == 2 * n + 1
  {
  }

  /** The words of one turn of the division loop, where there is room for them. */
  method TurnWide(divisor: Wide, quotient: Wide, carried: Wide) returns (quotient': Wide, carried': Wide)
    requires Number(quotient) < 16 * Quad.Implicit() && Number(carried) < 16 * Quad.Implicit()
    ensures var fits := Number(carried) >= Number(divisor);
      && Number(quotient') == 2 * Number(quotient) + (if fits then 1 else 0)
      && Number(carried') == 2 * if fits then Number(carried) - Number(divisor) else Number(carried)
  {
    hide *;
    Room(quotient);
    quotient', carried' := ShiftUp(quotient, 1), carried;
    OrderIsNumeric(carried, divisor);
    if AtLeast(carried, divisor) {
      carried' := SubtractWide(carried, divisor);
      SubtractIsExact(carried, divisor);
      StickyWord(quotient', true);
      StuckOfEven(Number(quotient));
      quotient' := WithSticky(quotient', true);
    }
    Room(carried');
    carried' := ShiftUp(carried', 1);
  }

  /** One turn of the division loop. */
  method DivideTurn(divisor: Wide, quotient: Wide, carried: Wide, ghost a: nat, ghost turns: nat)
    returns (quotient': Wide, carried': Wide)
    requires Normal(Quad, a) && Normal(Quad, Number(divisor)) && turns < Leading(Quad) + 2
    requires Dividing(a, Number(divisor), turns, Number(quotient), Number(carried))
    ensures Dividing(a, Number(divisor), turns + 1, Number(quotient'), Number(carried'))
  {
    hide Number, Dividing, Pow2;
    CarriedBelow(a, Number(divisor), turns, Number(quotient), Number(carried));
    LeadingFacts(Quad);
    DividingTurns(a, Number(divisor), turns, Number(quotient), Number(carried));
    QuotientRange(Quad, a, Number(divisor), turns, Number(quotient), Number(carried));
    Pow2Mono(turns, Leading(Quad) + 1);
    assert Pow2(Leading(Quad) + 1) == 2 * Pow2(Leading(Quad)) by { Pow2Next(Leading(Quad)); }
    quotient', carried' := TurnWide(divisor, quotient, carried);
  }

  lemma CarriedBelow(a: nat, b: nat, turns: nat, quotient: nat, carried: nat)
    requires Dividing(a, b, turns, quotient, carried)
    ensures carried < 2 * b
  {
  }

  method DivideSignificands(a: Wide, divisor: Wide) returns (quotient: Wide, remains: bool)
    requires Normal(Quad, Number(a)) && Normal(Quad, Number(divisor))
    ensures Number(quotient) == Shl(Number(a), Leading(Quad) + 1) / Number(divisor)
    ensures remains <==> Shl(Number(a), Leading(Quad) + 1) % Number(divisor) != 0
    ensures Pow2(Leading(Quad)) <= Number(quotient) < 4 * Pow2(Leading(Quad))
  {
    var remainder := a;
    quotient := Wide(0, 0);
    assert Dividing(Number(a), Number(divisor), 0, 0, Number(a)) by { ShlNone(Number(a)); }
    assert Pow2(Leading(Quad) + 2) == 4 * Pow2(Leading(Quad));
    hide Dividing, Shl, Pow2;
    for at := 0 to Leading(Quad) + 2
      invariant Dividing(Number(a), Number(divisor), at, Number(quotient), Number(remainder))
    {
      quotient, remainder := DivideTurn(divisor, quotient, remainder, Number(a), at);
    }
    QuotientRange(Quad, Number(a), Number(divisor), Leading(Quad) + 2, Number(quotient), Number(remainder));
    Divided(Number(a), Number(divisor), Leading(Quad) + 1, Number(quotient), Number(remainder));
    OrderIsNumeric(remainder, remainder);
    remains := !IsZeroWide(remainder);
  }

  /** The quotient with its sticky bit, brought down one place where it has one bit more. */
  method StickyQuotientWide(raw: Wide, remains: bool, base: int) returns (s: Wide, e: int)
    requires Pow2(Leading(Quad)) <= Number(raw) < 4 * Pow2(Leading(Quad))
    ensures var t := Stuck(Number(raw), remains);
      && Pow2(Leading(Quad)) <= t < 4 * Pow2(Leading(Quad))
      && if t < 2 * Pow2(Leading(Quad)) then Number(s) == t && e == base
         else Number(s) == RoundOdd(t, 2) && e == base + 1
  {
    LeadingFacts(Quad);
    assert Pow2(1) == 2;
    Room(raw);
    StuckRange(Pow2(Leading(Quad)), Number(raw), remains);
    StuckHalved(Number(raw), remains);
    StickyWord(raw, remains);
    hide *;
    var quotient, sticky := raw, remains;
    e := base;
    if quotient.high >= LEADING_HIGH * 2 {
      sticky := remains || quotient.low % 2 == 1;
      DropLowIsExact(quotient, 1);
      quotient := DropLow(quotient, 1);
      e := e + 1;
    }
    StickyWord(quotient, sticky);
    s := WithSticky(quotient, sticky);
  }

  method DivideNonzero(sign: Word, left: Wide, right: Wide) returns (result: Wide)
    requires sign == 0 || sign == SIGN_HIGH
    requires IsFinite(Quad, Number(left)) && IsFinite(Quad, Number(right))
    requires !IsZero(Quad, Number(left)) && !IsZero(Quad, Number(right))
    ensures var v, w := MagnitudeValue(Quad, Number(left)), MagnitudeValue(Quad, Number(right));
      w > 0 && HasSignAndNearest(Quad, sign != 0, Times(v, Quad.One()), w, Number(result))
  {
    hide Number, Value, Nearest, RoundAndPack, Scaled, Magnitude, Pow2, Shl, Packable, IsNan, IsInfinite,
         HasSignAndNearest;
    var a, ea := UnpackNormal(left);
    var b, eb := UnpackNormal(right);
    QuadFacts();
    var raw, remains := DivideSignificands(a, b);
    var s, e := StickyQuotientWide(raw, remains, ea - eb + BIAS - 1);
    ghost var v, w := MagnitudeValue(Quad, Number(left)), MagnitudeValue(Quad, Number(right));
    StuckIsRoundOdd(Shl(Number(a), Leading(Quad) + 1), Number(b));
    QuotientRounds(Quad, sign * WORD, v, Number(a), ea, w, Number(b), eb, e, Number(s));
    result := PackWide(sign, e, s, Times(v, Quad.One()), w);
  }

  method Divide(left: Wide, right: Wide) returns (result: Wide)
    ensures IsQuotient(Quad, Number(left), Number(right), Number(result))
  {
    OperandRefines(left);
    OperandRefines(right);
    hide Number, Value, Nearest, MagnitudeWide, Magnitude, Quiet, QuietWide, EmptyNan, IsNan, IsInfinite,
         Pow2, IsNanWide, IsInfiniteWide, InfinityWide, SignedBy, IsZero, IsZeroWide, HasSignAndNearest,
         MagnitudeValue, IsQuieted, IsEmptyNan, IsInfinityOf, IsZeroOf;
    if IsNanWide(left) { return QuietWide(left); }
    if IsNanWide(right) { return QuietWide(right); }
    var negative := (left.high >= SIGN_HIGH) != (right.high >= SIGN_HIGH);
    var sign := if negative then SIGN_HIGH else 0;
    SignedResults(negative);
    var leftZero, rightZero := IsZeroWide(MagnitudeWide(left)), IsZeroWide(MagnitudeWide(right));
    if IsInfiniteWide(left) {
      if IsInfiniteWide(right) { return Wide(EMPTY_NAN_HIGH, 0); }
      return InfinityWide(sign);
    }
    if IsInfiniteWide(right) { return Wide(sign, 0); }
    if rightZero {
      if leftZero { return Wide(EMPTY_NAN_HIGH, 0); }
      return InfinityWide(sign);
    }
    if leftZero {
      ZeroHasSign(negative, Times(MagnitudeValue(Quad, Number(left)), Quad.One()), MagnitudeValue(Quad, Number(right)));
      return Wide(sign, 0);
    }
    result := DivideNonzero(sign, left, right);
  }

  /** The comparison on pairs. */
  function CompareWide(left: Wide, right: Wide, unordered: int): int {
    if IsNanWide(left) || IsNanWide(right) then unordered
    else
      var l, r := MagnitudeWide(left), MagnitudeWide(right);
      if IsZeroWide(l) && IsZeroWide(r) then 0
      else if (left.high >= SIGN_HIGH) != (right.high >= SIGN_HIGH) then (if left.high >= SIGN_HIGH then -1 else 1)
      else if l == r then 0
      else
        var ordered := if Exceeds(l, r) then 1 else -1;
        if left.high >= SIGN_HIGH then -ordered else ordered
  }

  /** The comparison of pairs is the comparison of numbers, and so orders the values. */
  lemma CompareRefines(left: Wide, right: Wide, unordered: int)
    ensures CompareWide(left, right, unordered) == Compare(Quad, Number(left), Number(right), unordered)
  {
    OperandRefines(left);
    OperandRefines(right);
    OrderIsNumeric(MagnitudeWide(left), MagnitudeWide(right));
    hide Number, IsNanWide, IsNan, MagnitudeWide, Magnitude, IsZeroWide, Exceeds;
  }
}
