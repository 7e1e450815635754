/** The conversions of binary128, on pairs of words: integers of one word and of two, and the narrower formats. */
module QuadConversions {
  import opened Powers
  import opened Bits
  import opened Integers
  import opened Sticky
  import opened Rounding
  import opened Packing
  import opened Ieee
  import opened Multiplication
  import opened Conversions
  import opened Widths
  import opened Words
  import opened QuadFloat
  import SoftFloat

  /** A pair shifted up by any distance below two words. */
  function PairShiftedUp(w: Wide, up: nat): Wide {
    if up >= 64 then Wide(ShlWord(w.low, up - 64), 0) else if up == 0 then w else ShiftUp(w, up)
  }

  lemma PairShiftedUpIsExact(w: Wide, up: nat)
    requires up < 128 && Shl(Number(w), up) < WORD * WORD
    ensures Number(PairShiftedUp(w, up)) == Shl(Number(w), up)
  {
    if up >= 64 {
      var p := Pow2(up - 64);
      Pow2Words();
      Pow2Add(64, up - 64);
      assert Pow2(up) == WORD * p;
      hide Pow2;
      LowWordUp(w, p);
    } else if up == 0 {
      ShlNone(Number(w));
    } else {
      hide ShiftUp;
      ShiftUpIsExact(w, up);
    }
  }

  lemma LowWordUp(w: Wide, p: nat)
    requires p > 0 && Number(w) * (WORD * p) < WORD * WORD
    ensures w.high == 0 && w.low * p < WORD && Number(w) * (WORD * p) == w.low * p * WORD
  {
    assert Number(w) * (WORD * p) == Number(w) * p * WORD;
    MulMono(1, p, Number(w));
    assert Number(w) * p < WORD;
  }

  /** And down, keeping nothing. */
  function PairDroppedDown(w: Wide, down: nat): Wide
    requires down < 128
  {
    if down >= 64 then Wide(0, ShrWord(w.high, down - 64)) else if down == 0 then w else DropLow(w, down)
  }

  lemma PairDroppedDownIsExact(w: Wide, down: nat)
    requires down < 128
    ensures Number(PairDroppedDown(w, down)) == Number(w) / Pow2(down)
  {
    if down >= 64 {
      HighWordDown(w, down - 64);
    } else if down == 0 {
      assert Pow2(0) == 1;
    } else {
      hide DropLow;
      DropLowIsExact(w, down);
    }
  }

  /** A word shifted up into a pair, which is a pair with nothing in its high word shifted up. */
  function WordShiftedUp(value: Word, up: nat): Wide {
    if up >= 64 then Wide(ShlWord(value, up - 64), 0)
    else if up == 0 then Wide(0, value)
    else Wide(ShrWord(value, 64 - up), ShlWord(value, up))
  }

  lemma WordShiftedUpIsPair(value: Word, up: nat)
    ensures WordShiftedUp(value, up) == PairShiftedUp(Wide(0, value), up)
  {
    if 0 < up < 64 {
      assert ShlWord(0, up) == 0;
      OrZero(ShrWord(value, 64 - up));
    }
  }

  /** And the low word of a pair shifted down. */
  function WordShiftedDown(w: Wide, down: nat): Word
    requires down < 128
  {
    if down >= 64 then ShrWord(w.high, down - 64)
    else if down == 0 then w.low
    else OrWord(ShrWord(w.low, down), ShlWord(w.high, 64 - down))
  }

  lemma WordShiftedDownIsPair(w: Wide, down: nat)
    requires down < 128
    ensures WordShiftedDown(w, down) == PairDroppedDown(w, down).low
  {
  }

  method WidthOfPair(w: Wide) returns (bits: nat)
    ensures IsZeroWide(w) <==> bits == 0
    ensures bits > 0 ==> Pow2(bits - 1) <= Number(w) < Pow2(bits)
    ensures bits <= 128
  {
    Pow2Words();
    if w.high != 0 {
      var high := WidthOf(w.high);
      if high > 64 { Pow2Mono(64, high - 1); }
      Pow2Add(high - 1, 64);
      Pow2Add(high, 64);
      PairWidth(w, Pow2(high - 1), Pow2(high));
      bits := 64 + high;
    } else {
      bits := WidthOf(w.low);
      if bits > 64 { Pow2Mono(64, bits - 1); }
    }
  }

  lemma PairWidth(w: Wide, p: nat, q: nat)
    requires p <= w.high < q
    ensures p * WORD <= Number(w) < q * WORD
  {
    MulMono(w.high + 1, q, WORD);
  }

  /** The leading one of a pair moved to where the rounding wants it: up to a hundred and sixteen bits move up,
    * and a wider number moves down into the sticky bit.
    */
  method MoveLeading(magnitude: Wide, top: nat) returns (significand: Wide)
    requires Pow2(top) <= Number(magnitude) < 2 * Pow2(top) && top < 128
    ensures Number(significand) == if top <= Leading(Quad) then Shl(Number(magnitude), Leading(Quad) - top)
                                   else RoundOdd(Number(magnitude), Pow2(top - Leading(Quad)))
  {
    LeadingFacts(Quad);
    QuadFacts();
    hide RoundOdd, ShiftDownWide, PairShiftedUp, Number, Shl, Pow2;
    if top <= Leading(Quad) {
      LeadingMovedUp(Quad, Number(magnitude), top);
      PairShiftedUpIsExact(magnitude, Leading(Quad) - top);
      significand := PairShiftedUp(magnitude, Leading(Quad) - top);
    } else {
      ShiftDownIsExact(magnitude, top - Leading(Quad));
      significand := ShiftDownWide(magnitude, top - Leading(Quad));
    }
  }

  method FromNonzero(sign: Word, magnitude: Wide, top: nat) returns (result: Wide)
    requires sign == 0 || sign == SIGN_HIGH
    requires Pow2(top) <= Number(magnitude) < 2 * Pow2(top) && top < 128
    ensures HasSignAndNearest(Quad, sign != 0, Times(Number(magnitude), Quad.One()), 1, Number(result))
  {
    QuadFacts();
    hide Number, Shl, Pow2, RoundOdd, Packable, RoundAndPack, Nearest, HasSignAndNearest;
    var significand := MoveLeading(magnitude, top);
    IntegerRounds(Quad, sign * WORD, Number(magnitude), top, Number(significand));
    result := PackWide(sign, top + BIAS, significand, Times(Number(magnitude), Quad.One()), 1);
  }

  /** `quad_of_pair`. */
  method FromPair(sign: Word, magnitude: Wide) returns (result: Wide)
    requires sign == 0 || sign == SIGN_HIGH
    ensures HasSignAndNearest(Quad, sign != 0, Times(Number(magnitude), Quad.One()), 1, Number(result))
  {
    hide *;
    OrderIsNumeric(magnitude, Wide(0, 0));
    SignedResults(sign != 0);
    if IsZeroWide(magnitude) {
      ZeroHasSign(sign != 0, Times(Number(magnitude), Quad.One()), 1);
      return Wide(sign, 0);
    }
    var bits := WidthOfPair(magnitude);
    Pow2Next(bits - 1);
    result := FromNonzero(sign, magnitude, bits - 1);
  }

  /** `quad_of_integer`, whose shift is upwards for every word. */
  method FromWord(sign: Word, magnitude: Word) returns (result: Wide)
    requires sign == 0 || sign == SIGN_HIGH
    ensures HasSignAndNearest(Quad, sign != 0, Times(magnitude, Quad.One()), 1, Number(result))
  {
    SignedResults(sign != 0);
    hide *;
    if magnitude == 0 {
      ZeroHasSign(sign != 0, Times(magnitude, Quad.One()), 1);
      return Wide(sign, 0);
    }
    var bits := WidthOf(magnitude);
    var top := bits - 1;
    Pow2Next(top);
    WordBits(magnitude, bits);
    LeadingMovedUp(Quad, magnitude, top);
    WordMovedUp(magnitude, Leading(Quad) - top);
    var significand := WordShiftedUp(magnitude, Leading(Quad) - top);
    SignNumber(sign);
    IntegerRounds(Quad, sign * WORD, magnitude, top, Number(significand));
    result := PackWide(sign, top + BIAS, significand, Times(magnitude, Quad.One()), 1);
  }

  lemma SignNumber(sign: Word)
    requires sign == 0 || sign == SIGN_HIGH
    ensures sign * WORD == (if sign == 0 then 0 else Quad.SignBit()) && (sign * WORD == 0 <==> sign == 0)
    ensures Quad.Bias() == BIAS
  {
    QuadFacts();
  }

  lemma WordBits(magnitude: Word, bits: nat)
    requires bits > 0 && Pow2(bits - 1) <= magnitude
    ensures bits <= 64 && bits - 1 <= Leading(Quad) < 128
  {
    Pow2Words();
    if bits > 64 { Pow2Mono(64, bits - 1); }
  }

  lemma WordMovedUp(value: Word, up: nat)
    requires up < 128 && Shl(value, up) < 2 * Pow2(Leading(Quad))
    ensures Number(WordShiftedUp(value, up)) == Shl(value, up)
  {
    LeadingFacts(Quad);
    QuadFacts();
    Pow2Words();
    Pow2Add(64, 64);
    WordShiftedUpIsPair(value, up);
    hide PairShiftedUp, WordShiftedUp, Pow2, Shl;
    PairShiftedUpIsExact(Wide(0, value), up);
  }

  /** The significand moved to the integer side of the point. */
  method WholeOf(significand: Wide, exponent: int) returns (magnitude: Wide)
    requires 0 <= exponent <= 127
    requires exponent >= 112 ==> Shl(Number(significand), exponent - 112) < Pow2(128)
    ensures Number(magnitude) == if exponent >= 112 then Shl(Number(significand), exponent - 112)
                                 else Number(significand) / Pow2(112 - exponent)
  {
    QuadFacts();
    hide Number, Shl, Pow2, PairShiftedUp, PairDroppedDown;
    if exponent >= 112 {
      PairShiftedUpIsExact(significand, exponent - 112);
      magnitude := PairShiftedUp(significand, exponent - 112);
    } else {
      PairDroppedDownIsExact(significand, 112 - exponent);
      magnitude := PairDroppedDown(significand, 112 - exponent);
    }
  }

  /** Where the whole part of a finite quad is, and which exponents have one of so many bits. */
  lemma WholeOfQuad(p: Wide, limit: nat)
    requires 1 <= limit <= 128 && ExponentWide(p) != TOP
    ensures var (significand, stored) := UnpackWide(p);
      var exponent := stored - BIAS;
      var v := MagnitudeValue(Quad, Number(p));
      && IsFinite(Quad, Number(p))
      && 0 <= v / Quad.One()
      && (exponent <= limit - 1 <==> v < Times(Pow2(limit), Quad.One()))
      && (exponent <= limit - 1 ==> v / Quad.One() < Pow2(limit))
      && (exponent < 0 ==> v / Quad.One() == 0)
      && (exponent >= 0 ==> v / Quad.One() == if exponent >= 112 then Shl(Number(significand), exponent - 112)
                                              else Number(significand) / Pow2(112 - exponent))
  {
    FieldsRefine(p);
    UnpackRefines(p);
    UnpackValue(Quad, Number(p));
    QuadFacts();
    hide Number, Unpack, UnpackWide, Value, ExponentOf, FractionOf, Shl, Magnitude, Pow2;
    var (significand, stored) := UnpackWide(p);
    var v := MagnitudeValue(Quad, Number(p));
    WholePart(Quad, v, Number(significand), stored);
    FitsBits(Quad, v, Number(significand), stored, limit);
    DivBounds(v, Quad.One());
    if stored - BIAS <= limit - 1 { DivBelow(v, Quad.One(), Pow2(limit)); }
    if stored - BIAS < 0 { BelowOne(Quad, Number(significand), stored - BIAS); }
  }

  lemma NotFinite(p: Wide)
    ensures ExponentWide(p) == TOP <==> !IsFinite(Quad, Number(p))
  {
    FieldsRefine(p);
    QuadFacts();
    hide Number, Pow2, ExponentWide;
  }

  /** `pair_of_quad`: the whole part, where an integer of two words holds it. */
  method PairOf(p: Wide) returns (ok: bool, magnitude: Wide)
    ensures ok <==> IsFinite(Quad, Number(p)) && MagnitudeValue(Quad, Number(p)) < Times(Pow2(128), Quad.One())
    ensures Number(magnitude) == if ok then MagnitudeValue(Quad, Number(p)) / Quad.One() else 0
  {
    hide *;
    NotFinite(p);
    NothingIsZero();
    if ExponentWide(p) == TOP { return false, Wide(0, 0); }
    WholeOfQuad(p, 128);
    var (significand, stored) := UnpackWide(p);
    var exponent := stored - BIAS;
    if exponent < 0 { return true, Wide(0, 0); }
    if exponent > 127 { return false, Wide(0, 0); }
    magnitude := WholeOf(significand, exponent);
    ok := true;
  }

  lemma NothingIsZero()
    ensures Number(Wide(0, 0)) == 0
  {
  }

  /** `integer_of_quad`: the same where one word holds it, the significand only ever moving down. */
  method WordOf(p: Wide) returns (ok: bool, magnitude: Word)
    ensures ok <==> IsFinite(Quad, Number(p)) && MagnitudeValue(Quad, Number(p)) < Times(Pow2(64), Quad.One())
    ensures magnitude == if ok then MagnitudeValue(Quad, Number(p)) / Quad.One() else 0
  {
    hide *;
    NotFinite(p);
    if ExponentWide(p) == TOP { return false, 0; }
    WholeOfQuad(p, 64);
    var (significand, stored) := UnpackWide(p);
    var exponent := stored - BIAS;
    if exponent < 0 { return true, 0; }
    if exponent > 63 { return false, 0; }
    WordMovedDown(significand, 112 - exponent);
    magnitude := WordShiftedDown(significand, 112 - exponent);
    ok := true;
  }

  lemma WordMovedDown(w: Wide, down: nat)
    requires down < 128 && Number(w) / Pow2(down) < Pow2(64)
    ensures WordShiftedDown(w, down) == Number(w) / Pow2(down)
  {
    Pow2Words();
    WordShiftedDownIsPair(w, down);
    PairDroppedDownIsExact(w, down);
    hide WordShiftedDown, PairDroppedDown, Pow2;
    var d := PairDroppedDown(w, down);
    if d.high > 0 { MulMono(1, d.high, WORD); }
  }

  /** The whole part by whichever routine the width asks for. */
  method WholeFor(p: Wide, width: nat) returns (ok: bool, magnitude: nat)
    requires width == 32 || width == 64 || width == 128
    ensures var limit := if width == 128 then 128 else 64;
      ok <==> IsFinite(Quad, Number(p)) && MagnitudeValue(Quad, Number(p)) < Times(Pow2(limit), Quad.One())
    ensures magnitude == if ok then MagnitudeValue(Quad, Number(p)) / Quad.One() else 0
  {
    hide *;
    if width == 128 {
      var pair;
      ok, pair := PairOf(p);
      magnitude := Number(pair);
    } else {
      ok, magnitude := WordOf(p);
    }
  }

  /** A conversion to a signed integer of `width` bits, with zero for everything it does not hold. */
  method ToSigned(p: Wide, width: nat) returns (result: int)
    requires width == 32 || width == 64 || width == 128
    ensures var half: int := Pow2(width - 1);
      result == if IsFinite(Quad, Number(p)) && -half <= Truncated(Quad, Number(p)) < half
                then Truncated(Quad, Number(p)) else 0
  {
    hide Number, Pow2, MagnitudeValue, IsFinite;
    SignRefines(p);
    Pow2Mono(width - 1, width);
    BitsHoldWhole(Quad, Number(p), width, if width == 128 then 128 else 64);
    var ok, magnitude := WholeFor(p, width);
    var m: int := magnitude;
    var signed := Pow2(width - 1);
    if !ok { return 0; }
    if p.high >= SIGN_HIGH && m != 0 {
      if m > signed { return 0; }
      return -(m - 1) - 1;
    }
    if m >= signed { return 0; }
    result := m;
  }

  /** And to an unsigned one. At the full width no bound is tested, because the pair is the bound. */
  method ToUnsigned(p: Wide, width: nat) returns (result: nat)
    requires width == 32 || width == 64 || width == 128
    ensures result == if IsFinite(Quad, Number(p)) && 0 <= Truncated(Quad, Number(p)) < Pow2(width)
                      then Truncated(Quad, Number(p)) else 0
  {
    hide Number, Pow2, MagnitudeValue, IsFinite;
    SignRefines(p);
    BitsHoldWhole(Quad, Number(p), width, if width == 128 then 128 else 64);
    var ok, magnitude := WholeFor(p, width);
    if !ok { return 0; }
    if p.high >= SIGN_HIGH && magnitude != 0 { return 0; }
    if width == 128 {
      DivBelow(MagnitudeValue(Quad, Number(p)), Quad.One(), Pow2(width));
    } else if magnitude > Pow2(width) - 1 {
      return 0;
    }
    result := magnitude;
  }

  /** The words of a widening: a fraction of a narrower format goes to the top of the wider one's, all of it in the
    * high word where it fits there and its last bits at the top of the low one where it does not.
    */
  function WidenedWords(f: Layout, sign: Word, exponent: nat, fraction: Word): Wide
    requires f == Single || f == Double
  {
    var fields := OrWord(sign, Cut(exponent * IMPLICIT_HIGH));
    if f.fraction <= 48 then Wide(OrWord(fields, ShlWord(fraction, 48 - f.fraction)), 0)
    else Wide(OrWord(fields, ShrWord(fraction, f.fraction - 48)), ShlWord(fraction, 64 - (f.fraction - 48)))
  }

  lemma WidenedWordsRefine(f: Layout, sign: Word, exponent: nat, fraction: Word)
    requires f == Single || f == Double
    requires sign == 0 || sign == SIGN_HIGH
    requires exponent <= TOP && fraction < f.Implicit()
    ensures Number(WidenedWords(f, sign, exponent, fraction))
            == Packed(Quad, sign * WORD, exponent, Shl(fraction, Between(f, Quad)))
  {
    QuadFacts();
    WidenedFraction(f, fraction);
    MovedBelow(f, Quad, fraction);
    PackedIsSum(Quad, sign * WORD, exponent, Shl(fraction, Between(f, Quad)));
    hide Packed, Pow2, Or, Cut, Shl;
    if f == Single {
      PackedWords(sign, exponent, ShlWord(fraction, 25));
    } else {
      PackedWords(sign, exponent, ShrWord(fraction, 4));
    }
  }

  lemma WidenedFraction(f: Layout, fraction: Word)
    requires f == Single || f == Double
    requires fraction < f.Implicit()
    ensures f == Single ==> ShlWord(fraction, 25) < IMPLICIT_HIGH && ShlWord(fraction, 25) * WORD == Shl(fraction, 89)
    ensures f == Double ==> ShrWord(fraction, 4) < IMPLICIT_HIGH
                            && ShrWord(fraction, 4) * WORD + ShlWord(fraction, 60) == Shl(fraction, 60)
  {
    if f == Single { SingleFraction(fraction); } else { DoubleFraction(fraction); }
  }

  lemma SingleFraction(fraction: Word)
    requires fraction < Pow2(23)
    ensures ShlWord(fraction, 25) < IMPLICIT_HIGH && ShlWord(fraction, 25) * WORD == Shl(fraction, 89)
  {
    Pow2Words();
    assert Pow2(23) == 0x80_0000 && Pow2(25) == 0x200_0000;
    Pow2Add(25, 64);
    var p, q := Pow2(25), Pow2(89);
    hide Pow2, Cut;
    assert q == p * WORD;
  }

  lemma DoubleFraction(fraction: Word)
    requires fraction < Pow2(52)
    ensures ShrWord(fraction, 4) < IMPLICIT_HIGH
    ensures ShrWord(fraction, 4) * WORD + ShlWord(fraction, 60) == Shl(fraction, 60)
  {
    Pow2Words();
    Pow2Add(4, 60);
    Pow2Add(48, 4);
    QuadPowers();
    assert Pow2(4) == 16 && Pow2(60) == 0x1000_0000_0000_0000;
    hide Pow2;
    AcrossBoundary(fraction, 16, 0x1000_0000_0000_0000);
  }

  /** An infinity and a not a number as a quad. */
  method SpecialToQuad(f: Layout, sign: Word, fraction: nat) returns (q: Wide)
    requires (f == Single || f == Double) && fraction < f.Implicit()
    requires sign == 0 || sign == SIGN_HIGH
    ensures Wider(f, Quad)
    ensures IsPattern(Quad, Number(q)) && (Negative(Quad, Number(q)) <==> sign != 0)
    ensures Magnitude(Quad, Number(q)) == Quad.Infinity() + if fraction == 0 then 0
          else Shl(QuietFraction(f, fraction), Between(f, Quad))
  {
    hide Number, Pow2, Or, Shl, Packed, WidenedWords, Magnitude, QuietFraction, Between;
    QuadWider();
    QuadFacts();
    OrQuiet(f, fraction);
    SoftFloat.NormalIsWord(f, f.Implicit());
    ShlNothing(Between(f, Quad));
    var payload := if fraction == 0 then 0 else Or(fraction, Pow2(f.fraction - 1));
    SpecialWidens(f, Quad, sign * WORD, fraction);
    WidenedWordsRefine(f, sign, TOP, payload);
    q := WidenedWords(f, sign, TOP, payload);
  }

  method FiniteToQuad(f: Layout, sign: Word, p: nat) returns (q: Wide)
    requires (f == Single || f == Double) && IsFinite(f, p)
    requires sign == 0 || sign == SIGN_HIGH
    ensures Wider(f, Quad) && IsPattern(Quad, Number(q)) && (Negative(Quad, Number(q)) <==> sign != 0)
    ensures Magnitude(Quad, Number(q)) < Quad.Infinity()
    ensures MagnitudeValue(Quad, Number(q)) == Shl(MagnitudeValue(f, p), UnitShift(f, Quad))
  {
    hide Number, Value, Magnitude, Shl, Pow2, WidenedWords, Packed, Wider, Between, UnitShift, IsNan, IsInfinite;
    QuadWider();
    QuadFacts();
    SoftFloat.NormalIsWord(f, f.Implicit());
    if IsZero(f, p) {
      ZeroValues(f, Quad, p);
      SignedResults(sign != 0);
      SignAndMagnitude(Quad, sign * WORD, 0);
      return Wide(sign, 0);
    }
    var exponent, moved := WidenFinite(f, Quad, p);
    FinitePacks(Quad, sign * WORD, exponent, Shl(moved, Between(f, Quad)));
    WidenedWordsRefine(f, sign, exponent, moved);
    q := WidenedWords(f, sign, exponent, moved);
  }

  /** `__extendsftf2` and `__extenddftf2`. */
  method ExtendToQuad(f: Layout, p: nat) returns (q: Wide)
    requires (f == Single || f == Double) && IsPattern(f, p)
    ensures Wider(f, Quad) && IsWidened(f, Quad, p, Number(q))
  {
    hide Number, Value, ExponentOf, FractionOf, Magnitude, MagnitudeValue, Shl, QuietFraction, Wider, Between,
         UnitShift;
    var sign := if Negative(f, p) then SIGN_HIGH else 0;
    if ExponentOf(f, p) == f.Top() {
      q := SpecialToQuad(f, sign, FractionOf(f, p));
    } else {
      q := FiniteToQuad(f, sign, p);
    }
  }

  lemma ShlNothing(k: nat)
    ensures Shl(0, k) == 0
  {
  }

  lemma QuadWider()
    ensures Wider(Single, Double) && Wider(Double, Quad) && Wider(Single, Quad)
  {
    assert Pow2(7) == 128 && Pow2(10) == 1024 && Pow2(14) == 16384;
  }

  /** The significand of a quad cut to a narrower format's bits: two words shifted into one for a double, and the
    * high word alone with the low one in the sticky bit for a float.
    */
  function CutSignificand(f: Layout, s: Wide): nat {
    if f == Double then ShiftDownToWord(s.high, s.low, 57)
    else Or(ShiftDown(64, s.high, 22), Bit(s.low != 0))
  }

  lemma CutSignificandIsSticky(f: Layout, s: Wide)
    requires f == Single || f == Double
    requires Number(s) < 2 * Quad.Implicit()
    ensures CutSignificand(f, s) == RoundOdd(Number(s), Pow2(Quad.fraction - Leading(f)))
  {
    if f == Double {
      QuadFacts();
      QuadPowers();
      Pow2Mono(49, 57);
      assert Pow2(49) == 2 * IMPLICIT_HIGH;
      hide Pow2, ShiftDownToWord, RoundOdd;
      ShiftDownToWordIsExact(s, 57);
    } else {
      HighWordSticky(s, 22);
    }
  }

  lemma HighWordSticky(s: Wide, across: nat)
    ensures Or(ShiftDown(64, s.high, across), Bit(s.low != 0)) == RoundOdd(Number(s), Pow2(across + 64))
  {
    hide Pow2, ShiftDown, Or, Number;
    var p := Pow2(across);
    Pow2Words();
    Pow2Add(64, across);
    ShiftDownRoundsToOdd(64, s.high, across);
    OrBit(RoundOdd(s.high, p), Bit(s.low != 0));
    PastAWord(s, p);
  }

  /** The payload of a quad cut to a narrower format's bits. */
  function CutPayload(f: Layout, fraction: Wide): nat {
    if f == Double then OrWord(ShlWord(fraction.high, 4), ShrWord(fraction.low, 60)) else ShrWord(fraction.high, 25)
  }

  lemma CutPayloadIsExact(f: Layout, fraction: Wide)
    requires f == Single || f == Double
    requires fraction.high < IMPLICIT_HIGH
    ensures Wider(f, Quad) && CutPayload(f, fraction) == Number(fraction) / Pow2(Between(f, Quad))
  {
    QuadWider();
    if f == Double { DoublePayload(fraction); } else { HighWordDown(fraction, 25); }
  }

  lemma DoublePayload(fraction: Wide)
    requires fraction.high < IMPLICIT_HIGH
    ensures OrWord(ShlWord(fraction.high, 4), ShrWord(fraction.low, 60)) == Number(fraction) / Pow2(60)
  {
    Pow2Add(4, 60);
    Pow2Words();
    assert Pow2(4) == 16 && Pow2(60) == 0x1000_0000_0000_0000;
    DropLowIsExact(fraction, 60);
    hide Or, Cut;
    JoinWords(fraction.high, fraction.low, 0x1000_0000_0000_0000, 16, 4);
    DropLowParts(fraction, 60);
    hide Pow2;
    ModSmall(fraction.high, 0x1000_0000_0000_0000);
  }

  /** `__trunctfsf2` and `__trunctfdf2`. */
  method TruncateQuad(f: Layout, q: Wide) returns (p: nat)
    requires f == Single || f == Double
    ensures Wider(f, Quad) && IsNarrowed(f, Quad, Number(q), p)
  {
    QuadWider();
    SignRefines(q);
    FieldsRefine(q);
    UnpackRefines(q);
    UnpackValue(Quad, Number(q));
    CutPayloadIsExact(f, FractionWide(q));
    CutSignificandIsSticky(f, UnpackWide(q).0);
    hide Number, CutSignificand, CutPayload, UnpackWide, Unpack, FractionWide, FractionOf, RoundOdd, Value,
         Pow2, IsNarrowed;
    p := PackNarrowed(f, Quad, Number(q), CutSignificand(f, UnpackWide(q).0), CutPayload(f, FractionWide(q)));
  }

  /** `pair_of`. */
  function PairOfNumber(x: nat): Wide
    requires x < WORD * WORD
  {
    Wide(x / WORD, x % WORD)
  }

  /** The signed conversions up, at sixty four bits and at a hundred and twenty eight. */
  method FromSigned(value: int, width: nat) returns (result: Wide)
    requires (width == 64 || width == 128) && IsSigned(width, value)
    ensures RoundsTo(Quad, value * Quad.One(), 1, false, Number(result))
  {
    hide Pow2, Nearest, Magnitude;
    MagnitudeIsAbsolute(width, value);
    HalfIsBelow(width);
    var magnitude := MagnitudeBits(width, value);
    SignOfProduct(value, magnitude, Quad.One());
    var sign := if value < 0 then SIGN_HIGH else 0;
    if width == 64 {
      result := FromWord(sign, magnitude);
    } else {
      result := FromPair(sign, PairOfNumber(magnitude));
    }
  }

  lemma HalfIsBelow(width: nat)
    requires width == 64 || width == 128
    ensures Pow2(width - 1) < if width == 64 then WORD else WORD * WORD
  {
    QuadFacts();
    Pow2Words();
    Pow2Mono(width - 1, width);
    hide Pow2;
  }

  /** Every integer of sixty four bits survives the trip through a quad, unsigned and signed. */
  method WordThroughQuad(value: Word) returns (result: nat)
    ensures result == value
  {
    hide *;
    var quad := FromWord(0, value);
    WordIsExact(value, Number(quad));
    result := ToUnsigned(quad, 64);
  }

  lemma WordIsExact(value: Word, quad: nat)
    requires HasSignAndNearest(Quad, false, Times(value, Quad.One()), 1, quad)
    ensures IsFinite(Quad, quad) && Truncated(Quad, quad) == value < Pow2(64)
  {
    QuadFacts();
    Pow2Words();
    hide Pow2, Nearest, HasSignAndNearest;
    IntegerSurvives(Quad, value, quad);
  }

  method SignedThroughQuad(value: int) returns (result: int)
    requires IsSigned(64, value)
    ensures result == value
  {
    hide *;
    var quad := FromSigned(value, 64);
    SignedIsExact(value, Number(quad));
    result := ToSigned(quad, 64);
  }

  lemma SignedIsExact(value: int, quad: nat)
    requires IsSigned(64, value) && RoundsTo(Quad, value * Quad.One(), 1, false, quad)
    ensures IsFinite(Quad, quad) && Truncated(Quad, quad) == value
    ensures -(Pow2(63) as int) <= value < Pow2(63)
  {
    hide Pow2, Nearest, Value, Magnitude, ExponentOf, FractionOf;
    var magnitude: nat := if value < 0 then 0 - value else value;
    SmallMagnitude(magnitude);
    SignOfProduct(value, magnitude, Quad.One());
    MagnitudeSurvives(Quad, magnitude, quad);
  }

  lemma SmallMagnitude(magnitude: nat)
    requires magnitude <= Pow2(63)
    ensures magnitude < 2 * Quad.Implicit() && Quad.fraction <= Quad.Bias()
  {
    QuadFacts();
    HalfIsBelow(64);
  }

  /** The sign aside, an integer of no more bits than a significand is converted exactly. */
  lemma MagnitudeSurvives(f: Layout, n: nat, p: nat)
    requires f.fraction <= f.Bias() && n < 2 * f.Implicit()
    requires IsPattern(f, p) && Nearest(f, Times(n, f.One()), 1, Magnitude(f, p))
    ensures IsFinite(f, p) && MagnitudeValue(f, p) / f.One() == n
  {
    SignAndMagnitude(f, 0, Magnitude(f, p));
    Classes(f, p);
    Classes(f, Magnitude(f, p));
    hide Nearest, Value, Magnitude, ExponentOf, FractionOf;
    IntegerSurvives(f, n, Magnitude(f, p));
  }
}
