/** convert.c: a 128-bit integer to and from the floats of a machine that converts sixty four bits at a time.
  *
  * The machine's own conversions and arithmetic are any that round to nearest, so they stand here as the calls
  * into SoftFloat and Conversions that promise exactly that and no more.
  */
module MachineConvert {
  import opened Powers
  import opened Bits
  import opened Integers
  import opened Sticky
  import opened Rounding
  import opened Packing
  import opened Ieee
  import opened Comparison
  import opened Conversions
  import SoftFloat
  import opened Widths

  /** A format the machine has, whose exponents reach past two words. */
  predicate Native(f: Layout) { f.word == 64 && f.fraction + 64 <= f.Bias() }

  /** What the loop of `significant` keeps: `rest` is what is above `bits` bits, and `width` bits hold it. */
  ghost predicate Narrowing(value: nat, bits: nat, rest: nat, width: nat) {
    && rest == value / Pow2(bits)
    && rest < Pow2(width)
    && (value != 0 ==> rest != 0)
  }

  lemma NativeFormats()
    ensures Native(Single) && Native(Double) && Wider(Single, Double)
  {
    assert Single.Bias() == 127 && Double.Bias() == 1023;
  }

  /** `significant`: the width of a number of a hundred and twenty eight bits, by halving the step. */
  method Significant(value: nat) returns (bits: nat)
    requires value < Pow2(128)
    ensures value == 0 <==> bits == 0
    ensures bits > 0 ==> Pow2(bits - 1) <= value < Pow2(bits)
    ensures bits <= 128
  {
    assert Pow2(0) == 1;
    assert Narrowing(value, 0, value, 128) by { DivModUnique(value, 1, value, 0); }
    hide Narrowing, Pow2;
    var rest, step := value, 64;
    bits := 0;
    while step > 0
      invariant step == 64 || step == 32 || step == 16 || step == 8 || step == 4 || step == 2 || step == 1 || step == 0
      invariant bits + 2 * step <= 128 && bits <= 127
      invariant Narrowing(value, bits, rest, if step == 0 then 1 else 2 * step)
      decreases step
    {
      NarrowingTurns(value, bits, rest, step);
      if Shr(rest, step) != 0 {
        rest := Shr(rest, step);
        bits := bits + step;
      }
      step := step / 2;
    }
    Narrowed(value, bits, rest);
    if rest == 0 { return 0; }
    bits := bits + 1;
  }

  lemma NarrowingTurns(value: nat, bits: nat, rest: nat, step: nat)
    requires step > 0 && Narrowing(value, bits, rest, 2 * step)
    ensures Shr(rest, step) != 0 ==> Shr(rest, step) > 0 && Narrowing(value, bits + step, Shr(rest, step), step)
    ensures Shr(rest, step) == 0 ==> Narrowing(value, bits, rest, step)
  {
    Pow2Add(bits, step);
    Pow2Add(step, step);
    hide Pow2;
    DivDiv(value, Pow2(bits), Pow2(step));
    DivBounds(rest, Pow2(step));
    DivBelow(rest, Pow2(step), Pow2(step));
  }

  lemma Narrowed(value: nat, bits: nat, rest: nat)
    requires Narrowing(value, bits, rest, 1)
    ensures rest == 0 <==> value == 0
    ensures rest != 0 ==> Pow2(bits) <= value < Pow2(bits + 1)
  {
    assert Pow2(1) == 2 && Pow2(bits + 1) == 2 * Pow2(bits);
    hide Pow2;
    DivBounds(value, Pow2(bits));
    if value == 0 { ModSmall(0, Pow2(bits)); }
  }

  /** `leading`: the top sixty four bits, odd where anything was lost below them. */
  function LeadingWord(value: nat, extra: nat): nat
    requires 1 <= extra <= 64
  {
    var top := Shr(value, extra);
    if Shl(value, 128 - extra) % Pow2(128) != 0 then Or(top, 1) else top
  }

  lemma LeadingRoundsToOdd(value: nat, extra: nat)
    requires 1 <= extra <= 64
    ensures LeadingWord(value, extra) == RoundOdd(value, Pow2(extra))
  {
    Pow2Add(extra, 128 - extra);
    hide Pow2;
    OrBit(Shr(value, extra), 1);
    LostBits(value, Pow2(extra), Pow2(128 - extra));
  }

  /** Shifting up until only the bits that fell off are left asks whether any of them was set. */
  lemma LostBits(value: nat, d: nat, q: nat)
    requires d > 0 && q > 0
    ensures d * q > 0
    ensures value * q % (d * q) != 0 <==> value % d != 0
  {
    DivModFacts(value, d);
    var u, v := value / d, value % d;
    Distribute(u * d, v, q);
    MulAssoc(u, d, q);
    MulStrict(v, d, q);
    MulStrict(0, v, q);
    MulStrict(0, d, q);
    DivModUnique(value * q, d * q, u, v * q);
  }

  /** The magnitude pattern of 2^k. */
  function PowerPattern(f: Layout, k: nat): nat { (f.Bias() + k) * f.Implicit() }

  lemma PowerValue(f: Layout, k: nat)
    requires Native(f) && k <= 64
    ensures IsPattern(f, PowerPattern(f, k)) && !Negative(f, PowerPattern(f, k)) && IsFinite(f, PowerPattern(f, k))
    ensures MagnitudeValue(f, PowerPattern(f, k)) == f.One() * Pow2(k)
    ensures !IsZero(f, PowerPattern(f, k))
  {
    LayoutFacts(f);
    var e := f.Bias() + k;
    MulMono(e + 1, f.Top(), f.Implicit());
    Distribute(e, 1, f.Implicit());
    MulMono(1, e, f.Implicit());
    SignAndMagnitude(f, 0, PowerPattern(f, k));
    Classes(f, PowerPattern(f, k));
    assert e * f.Implicit() + 0 == PowerPattern(f, k);
    ValueOf(f, e, 0);
    Pow2Add(f.fraction, e - 1);
    Pow2Add(f.Bias() + f.fraction - 1, k);
  }

  // `x` exponents, as a distance between patterns.
  function Places(f: Layout, x: nat): nat { Times(x, f.Implicit()) }

  /** A normal magnitude `x` exponents up, which past the range is the infinity. */
  function Raised(f: Layout, m: nat, x: nat): nat {
    var up := m + Places(f, x);
    if up >= f.Infinity() then f.Infinity() else up
  }

  lemma RaisedTwice(f: Layout, m: nat, x: nat, y: nat)
    ensures Raised(f, Raised(f, m, x), y) == Raised(f, m, x + y)
  {
    Distribute(x, y, f.Implicit());
  }

  lemma RaisedValue(f: Layout, m: nat, x: nat)
    requires m >= f.Implicit()
    ensures Value(f, m + Places(f, x)) == Value(f, m) * Pow2(x)
  {
    hide Value, Pow2;
    var h := f.Implicit();
    DivModFacts(m, h);
    NormalExponent(m, h);
    var e, fraction := m / h, m % h;
    Distribute(e, x, h);
    RaisedFields(f, e, fraction, x);
  }

  lemma NormalExponent(m: nat, h: nat)
    requires 0 < h <= m
    ensures m / h >= 1
  {
    DivBounds(m, h);
    if m / h < 1 { MulMono(m / h, 0, h); }
  }

  lemma RaisedFields(f: Layout, e: nat, fraction: nat, x: nat)
    requires e >= 1 && fraction < f.Implicit()
    ensures Value(f, (e + x) * f.Implicit() + fraction) == Value(f, e * f.Implicit() + fraction) * Pow2(x)
  {
    hide Value, Pow2;
    ValueOf(f, e, fraction);
    ValueOf(f, e + x, fraction);
    Pow2Add(e - 1, x);
    MulAssoc(f.Implicit() + fraction, Pow2(e - 1), Pow2(x));
  }

  /** Multiplying by a power of two raises the exponent and rounds nothing. */
  lemma TimesPowerRaises(f: Layout, m: nat, k: nat, r: nat)
    requires Native(f) && f.Implicit() <= m <= f.Infinity()
    requires Nearest(f, Times(Value(f, m), Times(f.One(), Pow2(k))), f.One(), r)
    ensures r == Raised(f, m, k)
  {
    RaisedValue(f, m, k);
    hide Value, Nearest;
    var v, up := Value(f, m), m + Places(f, k);
    Reorder(v, f.One(), Pow2(k));
    if up >= f.Infinity() {
      ValueMono(f, f.Infinity(), up);
      MulMono(Value(f, f.Infinity()), v * Pow2(k), f.One());
      InfinityIsNearest(f, Times(v, Times(f.One(), Pow2(k))), f.One());
    } else {
      NearestExact(f, f.One(), up);
    }
    NearestUnique(f, Times(v, Times(f.One(), Pow2(k))), f.One(), r, Raised(f, m, k));
  }

  lemma Reorder(v: nat, one: nat, p: nat)
    ensures Times(v, Times(one, p)) == v * p * one
  {
    MulAssoc(v, p, one);
  }

  /** One multiplication of the loops below. */
  method ScaleOnce(f: Layout, value: nat, k: nat) returns (result: nat)
    requires Native(f) && k <= 64 && f.Implicit() <= value <= f.Infinity()
    ensures result == Raised(f, value, k)
  {
    hide Value, Nearest, IsNan, IsInfinite, Magnitude, MagnitudeValue;
    PositiveMagnitude(f, value);
    PowerValue(f, k);
    result := SoftFloat.Multiply(f, value, PowerPattern(f, k));
    ScaledProduct(f, value, k, result);
  }

  lemma PositiveMagnitude(f: Layout, m: nat)
    requires m <= f.Infinity()
    ensures IsPattern(f, m) && Magnitude(f, m) == m && !Negative(f, m)
    ensures IsInfinite(f, m) <==> m == f.Infinity()
    ensures !IsNan(f, m)
  {
    LayoutFacts(f);
    SignAndMagnitude(f, 0, m);
    Classes(f, m);
  }

  lemma ScaledProduct(f: Layout, value: nat, k: nat, result: nat)
    requires Native(f) && k <= 64 && f.Implicit() <= value <= f.Infinity()
    requires IsPattern(f, result) && IsProduct(f, value, PowerPattern(f, k), result)
    ensures result == Raised(f, value, k)
  {
    PositiveMagnitude(f, value);
    PowerValue(f, k);
    LayoutFacts(f);
    hide Value, Nearest, IsNan, IsInfinite, Magnitude, IsQuieted, IsEmptyNan;
    PatternIsSignAndMagnitude(f, result);
    Classes(f, result);
    if value < f.Infinity() {
      TimesPowerRaises(f, value, k, Magnitude(f, result));
    }
  }

  /** `scale_double` and `scale_float`: up by 2^by, sixteen exponents at a time and then one. */
  method Scale(f: Layout, value: nat, power: nat) returns (result: nat)
    requires Native(f) && f.Implicit() <= value <= f.Infinity()
    ensures result == Raised(f, value, power)
  {
    hide Raised;
    var left: nat := power;
    result := value;
    RaisedNone(f, value);
    while left >= 16
      invariant left <= power && f.Implicit() <= result <= f.Infinity() && result == Raised(f, value, power - left)
    {
      RaisedTwice(f, value, power - left, 16);
      RaisedRange(f, value, power - left + 16);
      result := ScaleOnce(f, result, 16);
      left := left - 16;
    }
    while left > 0
      invariant left <= power && f.Implicit() <= result <= f.Infinity() && result == Raised(f, value, power - left)
    {
      RaisedTwice(f, value, power - left, 1);
      RaisedRange(f, value, power - left + 1);
      result := ScaleOnce(f, result, 1);
      left := left - 1;
    }
    assert left == 0 && power - left == power;
  }

  lemma RaisedNone(f: Layout, m: nat)
    requires m <= f.Infinity()
    ensures Raised(f, m, 0) == m
  {
  }

  lemma RaisedRange(f: Layout, m: nat, x: nat)
    requires f.Implicit() <= m <= f.Infinity()
    ensures f.Implicit() <= Raised(f, m, x) <= f.Infinity()
  {
  }

  // A packed magnitude with its three rounding bits, of which `eighths` is the number, acted on.
  function RoundedUp(base: nat, eighths: nat): nat {
    if eighths < 4 then base else if eighths > 4 then base + 1 else base + base % 2
  }

  /** The same significand packed `x` exponents higher is the packed number raised. */
  lemma PackedHigher(f: Layout, e: nat, s: nat, x: nat)
    requires e >= 1 && Pow2(Leading(f)) <= s < 2 * Pow2(Leading(f))
    ensures f.Implicit() <= RoundAndPack(f, 0, e, s) <= f.Infinity()
    ensures RoundAndPack(f, 0, e + x, s) == Raised(f, RoundAndPack(f, 0, e, s), x)
  {
    hide Places, RoundAndPack, RoundedUp, Leading, Pow2;
    var kept := PackedFields(f, e, s);
    var kept' := PackedFields(f, e + x, s);
    PlacesRaised(f, e, x);
    RoundedUpRaised(f.Infinity(), f.Implicit(), Places(f, e), Places(f, x),
      Places(f, e + x), kept, s % 8, e >= f.Top(), e + x >= f.Top());
  }

  lemma RoundedUpRaised(infinity: nat, h: nat, base: nat, up: nat, raised: nat, kept: nat, eighths: nat,
                        over: bool, overRaised: bool)
    requires raised == base + up && up % 2 == 0 && kept < h <= base && h <= infinity
    requires over ==> base >= infinity
    requires if overRaised then raised >= infinity else raised + h <= infinity && !over
    ensures var low := if over then infinity else RoundedUp(base + kept, eighths);
      && h <= low
      && (if overRaised then infinity else RoundedUp(raised + kept, eighths))
         == if low + up >= infinity then infinity else low + up
  {
  }

  lemma PackedFields(f: Layout, e: nat, s: nat) returns (kept: nat)
    requires e >= 1 && Pow2(Leading(f)) <= s < 2 * Pow2(Leading(f))
    ensures kept == s / 8 % f.Implicit() < f.Implicit()
    ensures RoundAndPack(f, 0, e, s)
            == if e >= f.Top() then f.Infinity() else RoundedUp(Places(f, e) + kept, s % 8)
    ensures RoundAndPack(f, 0, e, s) <= f.Infinity()
  {
    hide RoundAndPack, Pow2;
    PackArithmetic(f, 0, e, s);
    DivModFacts(s / 8, f.Implicit());
    kept := s / 8 % f.Implicit();
  }

  lemma PlacesRaised(f: Layout, e: nat, x: nat)
    requires e >= 1
    ensures f.Implicit() <= Places(f, e) && f.Implicit() <= f.Infinity()
    ensures Places(f, e + x) == Places(f, e) + Places(f, x)
    ensures Places(f, x) % 2 == 0
    ensures e >= f.Top() ==> Places(f, e) >= f.Infinity()
    ensures e + x >= f.Top() ==> Places(f, e + x) >= f.Infinity()
    ensures e + x < f.Top() ==> Places(f, e + x) + f.Implicit() <= f.Infinity()
  {
    LayoutFacts(f);
    var h := f.Implicit();
    MulMono(1, e, h);
    MulMono(1, f.Top(), h);
    Distribute(e, x, h);
    EvenMultiple(x, h);
    if e >= f.Top() { MulMono(f.Top(), e, h); }
    if e + x >= f.Top() { MulMono(f.Top(), e + x, h); }
    if e + x < f.Top() { MulMono(e + x + 1, f.Top(), h); Distribute(e + x, 1, h); }
  }

  /** Rounding to odd at `top + 1` bits and then to the significand is rounding to odd once. */
  lemma SignificandOnce(f: Layout, value: nat, top: nat, x: nat, word: nat, s: nat)
    requires Leading(f) < top && Pow2(top + x) <= value < 2 * Pow2(top + x)
    requires word == RoundOdd(value, Pow2(x)) && s == RoundOdd(word, Pow2(top - Leading(f)))
    ensures s == RoundOdd(value, Pow2(top + x - Leading(f)))
    ensures Pow2(top) <= word < 2 * Pow2(top)
    ensures Pow2(Leading(f)) <= s < 2 * Pow2(Leading(f))
  {
    var down := top - Leading(f);
    Pow2Add(x, down);
    EvenPower(down);
    WordRange(value, top, x);
    LeadingMovedDown(f, word, top);
    hide RoundOdd, Pow2;
    RoundOddTwice(value, Pow2(x), Pow2(down));
  }

  /** What an integer that is wider than a significand rounds to. */
  lemma WidePacked(f: Layout, magnitude: nat, top: nat, s: nat, m: nat)
    requires top > Leading(f) && Pow2(top) <= magnitude < 2 * Pow2(top)
    requires s == RoundOdd(magnitude, Pow2(top - Leading(f)))
    ensures Nearest(f, Times(magnitude, f.One()), 1, m) <==> m == RoundAndPack(f, 0, top + f.Bias(), s)
  {
    hide *;
    IntegerRounds(f, 0, magnitude, top, s);
    if Nearest(f, Times(magnitude, f.One()), 1, m) {
      NearestUnique(f, Times(magnitude, f.One()), 1, m, RoundAndPack(f, 0, top + f.Bias(), s));
    }
  }

  /** Rounding to odd at `top + 1` bits, which are more than a significand has, then to nearest, then raising the
    * exponent is rounding to nearest once.
    */
  lemma OnceIsEnough(f: Layout, value: nat, top: nat, x: nat, word: nat, converted: nat)
    requires Leading(f) < top && Pow2(top + x) <= value < 2 * Pow2(top + x)
    requires word == RoundOdd(value, Pow2(x))
    requires Nearest(f, Times(word, f.One()), 1, converted)
    ensures f.Implicit() <= converted <= f.Infinity()
    ensures Nearest(f, Times(value, f.One()), 1, Raised(f, converted, x))
  {
    hide *;
    var s := RoundOdd(word, Pow2(top - Leading(f)));
    SignificandOnce(f, value, top, x, word, s);
    WidePacked(f, word, top, s, converted);
    PackedHigher(f, top + f.Bias(), s, x);
    WidePacked(f, value, top + x, s, Raised(f, converted, x));
  }

  lemma EvenPower(k: nat)
    requires k > 0
    ensures Pow2(k) % 2 == 0
  {
  }

  lemma WordRange(value: nat, top: nat, x: nat)
    requires Pow2(top + x) <= value < 2 * Pow2(top + x)
    ensures Pow2(top) <= RoundOdd(value, Pow2(x)) < 2 * Pow2(top)
  {
    Pow2Add(top, x);
    hide Pow2, RoundOdd;
    RoundOddRange(value, Pow2(x), Pow2(top));
  }

  /** The conversion of an integer wider than a word. */
  method FromWide(f: Layout, value: nat, bits: nat) returns (result: nat)
    requires Native(f) && 64 < bits <= 128 && Pow2(bits - 1) <= value < Pow2(bits)
    ensures HasSignAndNearest(f, false, Times(value, f.One()), 1, result)
  {
    hide *;
    NativeFits(f);
    LeadingFits(value, bits, 63);
    var converted := FromInteger(f, 0, LeadingWord(value, bits - 64));
    LeadingConverted(f, value, 63, bits - 64, LeadingWord(value, bits - 64), converted);
    result := Scale(f, converted, bits - 64);
  }

  lemma NativeFits(f: Layout)
    requires Native(f)
    ensures f.word == 64 && Leading(f) < 63
  {
  }

  lemma LeadingFits(value: nat, bits: nat, top: nat)
    requires top == 63 && 64 < bits <= 128 && Pow2(bits - 1) <= value < Pow2(bits)
    ensures Pow2(top + (bits - 64)) <= value < 2 * Pow2(top + (bits - 64))
    ensures LeadingWord(value, bits - 64) == RoundOdd(value, Pow2(bits - 64))
    ensures LeadingWord(value, bits - 64) < Pow2(top + 1)
  {
    hide *;
    Pow2Next(bits - 1);
    Pow2Next(top);
    LeadingRoundsToOdd(value, bits - 64);
    WordRange(value, top, bits - 64);
  }

  lemma LeadingConverted(f: Layout, value: nat, top: nat, x: nat, word: nat, converted: nat)
    requires Leading(f) < top && Pow2(top + x) <= value < 2 * Pow2(top + x)
    requires word == RoundOdd(value, Pow2(x))
    requires HasSignAndNearest(f, false, Times(word, f.One()), 1, converted)
    ensures f.Implicit() <= converted <= f.Infinity()
    ensures HasSignAndNearest(f, false, Times(value, f.One()), 1, Raised(f, converted, x))
  {
    PatternIsSignAndMagnitude(f, converted);
    hide Nearest, Value, RoundOdd, Pow2, Magnitude, Raised, Times;
    OnceIsEnough(f, value, top, x, word, converted);
    RaisedRange(f, converted, x);
    PositiveMagnitude(f, Raised(f, converted, x));
  }

  /** `__floatuntidf` and `__floatuntisf`: the nearest float to a 128-bit integer, an infinity where the nearest is
    * one.
    */
  method FromUnsigned(f: Layout, value: nat) returns (result: nat)
    requires Native(f) && value < Pow2(128)
    ensures HasSignAndNearest(f, false, Times(value, f.One()), 1, result)
  {
    var bits := Significant(value);
    if bits <= 64 {
      Pow2Mono(bits, 64);
      assert Pow2(0) == 1;
      hide *;
      result := FromInteger(f, 0, value);
    } else {
      result := FromWide(f, value, bits);
    }
  }

  /** Two patterns that an integer rounds to are one. */
  lemma NearestAgree(f: Layout, negative: bool, num: nat, one: nat, two: nat)
    requires HasSignAndNearest(f, negative, num, 1, one) && HasSignAndNearest(f, negative, num, 1, two)
    ensures one == two
  {
    PatternIsSignAndMagnitude(f, one);
    PatternIsSignAndMagnitude(f, two);
    NearestUnique(f, num, 1, Magnitude(f, one), Magnitude(f, two));
  }

  /** Below 2^64 the conversion of a 128-bit integer and that of an integer of one word agree bit for bit. */
  method ConvertBothWays(f: Layout, value: nat) returns (wide: nat, word: nat)
    requires Native(f) && value < Pow2(64)
    ensures wide == word && HasSignAndNearest(f, false, Times(value, f.One()), 1, wide)
  {
    NativeFits(f);
    Pow2Mono(64, 128);
    hide *;
    wide := FromUnsigned(f, value);
    word := FromInteger(f, 0, value);
    NearestAgree(f, false, Times(value, f.One()), wide, word);
  }

  /** `__floattidf` and `__floattisf`: the magnitude converted, and the sign put on it exactly. */
  method FromSigned(f: Layout, value: int) returns (result: nat)
    requires Native(f) && -(Pow2(127) as int) <= value < Pow2(127)
    ensures RoundsTo(f, value * f.One(), 1, false, result)
  {
    hide Nearest, Value, Magnitude;
    Pow2Next(127);
    var magnitude := if value < 0 then 0 - value else value;
    SignOfProduct(value, magnitude, f.One());
    result := FromUnsigned(f, magnitude);
    if value < 0 {
      FlippedSign(f, result);
      result := Flipped(f, result);
    }
  }

  /** An operation whose exact answer is a value of the format gives that value. */
  lemma AnswerIsExact(f: Layout, num: nat, den: nat, a: nat, k: nat, p: nat)
    requires HasSignAndNearest(f, false, num, den, p)
    requires den > 0 && num == Shl(a, k) * den && a < 2 * f.Implicit() && k + 1 < f.Top()
    ensures IsFinite(f, p) && !Negative(f, p) && MagnitudeValue(f, p) == Shl(a, k)
  {
    hide Value, Nearest, Shl, Magnitude;
    NearestSameQuotient(f, num, den, Shl(a, k), 1, Magnitude(f, p));
    ExactWhereRepresentable(f, a, k, Magnitude(f, p));
    Classes(f, p);
  }

  /** A multiple of a power of two is cut at another one into two multiples that need no more significand. */
  lemma SplitAt(a: nat, k: nat, n: nat) returns (high: nat, i: nat, low: nat)
    ensures high <= a && low <= a && i == if k >= n then k else n
    ensures Shl(a, k) == Shl(high, i) + Shl(low, k)
    ensures Shl(high, i) == Shl(a, k) / Pow2(n) * Pow2(n) && Shl(low, k) == Shl(a, k) % Pow2(n)
  {
    if k >= n {
      high, i, low := a, k, 0;
      ShlTwice(a, k - n, n);
      DivModUnique(Shl(a, k), Pow2(n), Shl(a, k - n), 0);
    } else {
      var d := Pow2(n - k);
      DivBounds(a, d);
      DivModFacts(a, d);
      high, i, low := a / d, n, a % d;
      CutMultiple(a, d, high, low, Pow2(k));
      Pow2Add(n - k, k);
    }
  }

  lemma CutMultiple(a: nat, d: nat, high: nat, low: nat, p: nat)
    requires d > 0 && p > 0 && a == high * d + low && low < d
    ensures d * p > 0 && a * p == high * (d * p) + low * p
    ensures a * p / (d * p) == high && a * p % (d * p) == low * p
  {
    Distribute(high * d, low, p);
    MulAssoc(high, d, p);
    MulStrict(low, d, p);
    MulMono(0, low, p);
    MulStrict(0, d, p);
    DivModUnique(a * p, d * p, high, low * p);
  }

  /** The significand and exponent of a value past sixty four bits, which has exponent to spare. */
  lemma PastSixtyFour(f: Layout, p: nat) returns (a: nat, k: nat)
    requires Native(f) && IsFinite(f, p) && MagnitudeValue(f, p) >= Times(f.One(), Pow2(64))
    ensures MagnitudeValue(f, p) == Shl(a, k) && a < 2 * f.Implicit() && 64 <= k && k + 1 < f.Top()
  {
    hide Value, Unpack, Magnitude, Pow2, Shl, ExponentOf, FractionOf;
    UnpackValue(f, p);
    var (significand, exponent) := Unpack(f, p);
    a, k := significand, exponent - 1;
    ShlIsProduct(a, k);
    Pow2Add(f.Bias() + f.fraction - 1, 64);
    ExponentToSpare(a, k, f.fraction, f.Bias() + f.fraction - 1, 64);
  }

  lemma ExponentToSpare(a: nat, k: nat, fraction: nat, ones: nat, bits: nat)
    requires a < 2 * Pow2(fraction) && Shl(a, k) >= Pow2(ones + bits)
    ensures fraction + 1 + k > ones + bits
  {
    Pow2Add(fraction + 1, k);
    Pow2Next(fraction);
    hide Pow2;
    MulStrict(a, Pow2(fraction + 1), Pow2(k));
    PowersBetween(Shl(a, k), ones + bits, fraction + 1 + k);
  }

  lemma PowersBetween(x: nat, m: nat, n: nat)
    requires Pow2(m) <= x < Pow2(n)
    ensures m < n
  {
    if n <= m { Pow2Mono(n, m); }
  }

  /** Dividing by 2^64 is exact, and what is left of the point is the top half of the answer. */
  lemma HighIsExact(f: Layout, p: nat, a: nat, k: nat, high: nat)
    requires Native(f) && IsPattern(f, p) && IsFinite(f, p) && !Negative(f, p)
    requires MagnitudeValue(f, p) == Shl(a, k) && a < 2 * f.Implicit() && 64 <= k && k + 1 < f.Top()
    requires IsPattern(f, high) && IsQuotient(f, p, PowerPattern(f, 64), high)
    ensures IsFinite(f, high) && !Negative(f, high) && MagnitudeValue(f, high) == Shl(a, k - 64)
    ensures Truncated(f, high) == Shl(a, k) / Times(f.One(), Pow2(64))
  {
    hide Value, Nearest, Shl, Magnitude, PowerPattern, IsNan, IsInfinite;
    PowerValue(f, 64);
    ShlTwice(a, k - 64, 64);
    ShiftedProduct(Shl(a, k), Shl(a, k - 64), f.One(), Pow2(64));
    AnswerIsExact(f, Times(Shl(a, k), f.One()), Times(f.One(), Pow2(64)), a, k - 64, high);
    DivCancels(Shl(a, k - 64), f.One(), Pow2(64));
  }

  lemma ShiftedProduct(v: nat, w: nat, one: nat, p: nat)
    requires v == Shl(w, 64) && p == Pow2(64)
    ensures Times(v, one) == w * Times(one, p) && v == w * p
  {
    hide Pow2;
    MulAssoc(w, p, one);
    MulAssoc(w, one, p);
  }

  /** The top half converted and multiplied back, both exactly. */
  lemma BackIsExact(f: Layout, top: nat, hi: nat, i: nat, converted: nat, back: nat)
    requires Native(f) && hi < 2 * f.Implicit() && 64 <= i && i + 1 < f.Top()
    requires Shl(hi, i) == top * Times(f.One(), Pow2(64))
    requires HasSignAndNearest(f, false, Times(top, f.One()), 1, converted)
    requires IsPattern(f, back) && IsProduct(f, converted, PowerPattern(f, 64), back)
    ensures IsFinite(f, back) && !Negative(f, back) && MagnitudeValue(f, back) == Shl(hi, i)
  {
    hide Value, Nearest, Shl, Magnitude, PowerPattern, IsNan, IsInfinite, Pow2;
    PowerValue(f, 64);
    BackProducts(top, f.One(), hi, i, 64);
    AnswerIsExact(f, Times(top, f.One()), 1, hi, i - 64, converted);
    AnswerIsExact(f, Times(Shl(hi, i - 64), Times(f.One(), Pow2(64))), f.One(), hi, i, back);
  }

  lemma BackProducts(top: nat, one: nat, hi: nat, i: nat, bits: nat)
    requires bits <= i && Shl(hi, i) == top * Times(one, Pow2(bits))
    ensures Times(top, one) == Shl(hi, i - bits) * 1
    ensures Times(Shl(hi, i - bits), Times(one, Pow2(bits))) == Shl(hi, i) * one
  {
    ShlTwice(hi, i - bits, bits);
    var p := Pow2(bits);
    var w := Shl(hi, i - bits);
    hide Shl;
    assert w * p == top * one * p by { MulAssoc(top, one, p); }
    MulStrict(w, top * one, p);
    MulAssoc(w, p, one);
    MulAssoc(w, one, p);
  }

  /** The subtraction that leaves the bottom half is exact, because what is left is a multiple of the spacing of
    * the value it came from.
    */
  lemma RestIsExact(f: Layout, p: nat, back: nat, a: nat, k: nat, hi: nat, i: nat, lo: nat, rest: nat)
    requires IsPattern(f, p) && IsFinite(f, p) && !Negative(f, p) && MagnitudeValue(f, p) == Shl(a, k)
    requires IsFinite(f, back) && !Negative(f, back) && MagnitudeValue(f, back) == Shl(hi, i)
    requires Shl(a, k) == Shl(hi, i) + Shl(lo, k) && lo < 2 * f.Implicit() && k + 1 < f.Top()
    requires IsPattern(f, rest) && IsDifference(f, p, back, rest)
    ensures IsFinite(f, rest) && !Negative(f, rest) && MagnitudeValue(f, rest) == Shl(lo, k)
  {
    hide Value, Nearest, Shl, Magnitude, IsNan, IsInfinite;
    AnswerIsExact(f, Shl(lo, k), 1, lo, k, rest);
  }

  /** The whole part is the two halves put together. */
  lemma HalvesJoin(v: nat, one: nat, p: nat, top: nat, rest: nat)
    requires one > 0 && p > 0
    requires top == v / Times(one, p) && rest == v % Times(one, p)
    ensures v / one == top * p + rest / one && rest / one < p
  {
    DivDiv(v, one, p);
    DivModFacts(v / one, p);
    DivModUnique(rest, one, v / one % p, v % one);
  }

  lemma TopFits(v: nat, one: nat)
    requires one > 0 && v < Times(one, Pow2(128))
    ensures Times(one, Pow2(64)) > 0 && 0 <= v / Times(one, Pow2(64)) < Pow2(64)
  {
    Pow2Add(64, 64);
    var p := Pow2(64);
    hide Pow2;
    MulStrict(0, one, p);
    MulAssoc(one, p, p);
    MulAssoc(p, one, p);
    DivBelow(v, one * p, p);
    DivBounds(v, one * p);
  }

  lemma WordsJoin(top: nat, low: nat, k: nat)
    requires low < Pow2(k)
    ensures Or(Shl(top, k), low) == top * Pow2(k) + low
  {
    DivModUnique(Shl(top, k), Pow2(k), top, 0);
    OrSum(Shl(top, k), low, k);
  }

  /** A value past one word as its significand and exponent, and the two parts of it that 2^64 cuts. */
  ghost predicate Cut(f: Layout, value: nat, a: nat, k: nat, hi: nat, i: nat, lo: nat) {
    && a < 2 * f.Implicit() && hi <= a && lo <= a && 64 <= k && k + 1 < f.Top() && 64 <= i && i + 1 < f.Top()
    && MagnitudeValue(f, value) == Shl(a, k) == Shl(hi, i) + Shl(lo, k)
    && var step := Times(f.One(), Pow2(64));
       step > 0 && Shl(hi, i) == Shl(a, k) / step * step && Shl(lo, k) == Shl(a, k) % step
  }

  lemma CutInTwo(f: Layout, value: nat) returns (a: nat, k: nat, hi: nat, i: nat, lo: nat)
    requires Native(f) && IsFinite(f, value) && MagnitudeValue(f, value) >= Times(f.One(), Pow2(64))
    ensures Cut(f, value, a, k, hi, i, lo)
  {
    LayoutFacts(f);
    a, k := PastSixtyFour(f, value);
    hide Shl;
    Pow2Add(f.Bias() + f.fraction - 1, 64);
    hi, i, lo := SplitAt(a, k, f.Bias() + f.fraction - 1 + 64);
  }

  method TopHalf(f: Layout, value: nat) returns (top: nat)
    requires Native(f) && IsPattern(f, value) && IsFinite(f, value) && !Negative(f, value)
    requires Times(f.One(), Pow2(64)) <= MagnitudeValue(f, value) < Times(f.One(), Pow2(128))
    ensures Times(f.One(), Pow2(64)) > 0 && top == MagnitudeValue(f, value) / Times(f.One(), Pow2(64)) < Pow2(64)
  {
    ghost var a, k := PastSixtyFour(f, value);
    PowerValue(f, 64);
    assert f.word == 64;
    hide *;
    var high := SoftFloat.Divide(f, value, PowerPattern(f, 64));
    HighIsExact(f, value, a, k, high);
    TopFits(MagnitudeValue(f, value), f.One());
    top := ToUnsigned(f, high, 64);
  }

  lemma CutAtTop(f: Layout, value: nat, a: nat, k: nat, hi: nat, i: nat, lo: nat, top: nat)
    requires Cut(f, value, a, k, hi, i, lo) && Times(f.One(), Pow2(64)) > 0
    requires top == MagnitudeValue(f, value) / Times(f.One(), Pow2(64))
    ensures Shl(hi, i) == top * Times(f.One(), Pow2(64))
    ensures Shl(lo, k) == MagnitudeValue(f, value) % Times(f.One(), Pow2(64))
  {
  }

  method BottomHalf(f: Layout, value: nat, top: nat) returns (rest: nat)
    requires Native(f) && IsPattern(f, value) && IsFinite(f, value) && !Negative(f, value)
    requires Times(f.One(), Pow2(64)) <= MagnitudeValue(f, value)
    requires Times(f.One(), Pow2(64)) > 0
    requires top == MagnitudeValue(f, value) / Times(f.One(), Pow2(64)) < Pow2(64)
    ensures IsFinite(f, rest) && !Negative(f, rest)
    ensures MagnitudeValue(f, rest) == MagnitudeValue(f, value) % Times(f.One(), Pow2(64))
    ensures Truncated(f, rest) == MagnitudeValue(f, rest) / f.One()
  {
    PowerValue(f, 64);
    ghost var a, k, hi, i, lo := CutInTwo(f, value);
    CutAtTop(f, value, a, k, hi, i, lo, top);
    hide Value, Nearest, Shl, Magnitude, PowerPattern, IsNan, IsInfinite, Pow2, Times, IsProduct, IsDifference;
    var converted := FromInteger(f, 0, top);
    var back := SoftFloat.Multiply(f, converted, PowerPattern(f, 64));
    BackIsExact(f, top, hi, i, converted, back);
    rest := SoftFloat.Subtract(f, value, back);
    RestIsExact(f, value, back, a, k, hi, i, lo, rest);
  }

  lemma HalvesFit(f: Layout, value: nat, top: nat, rest: nat)
    requires Times(f.One(), Pow2(64)) > 0
    requires top == MagnitudeValue(f, value) / Times(f.One(), Pow2(64))
    requires MagnitudeValue(f, rest) == MagnitudeValue(f, value) % Times(f.One(), Pow2(64))
    ensures 0 <= MagnitudeValue(f, rest) / f.One() < Pow2(64)
    ensures Or(Shl(top, 64), MagnitudeValue(f, rest) / f.One()) == MagnitudeValue(f, value) / f.One()
  {
    hide *;
    HalvesJoin(MagnitudeValue(f, value), f.One(), Pow2(64), top, MagnitudeValue(f, rest));
    DivBounds(MagnitudeValue(f, rest), f.One());
    WordsJoin(top, MagnitudeValue(f, rest) / f.One(), 64);
  }

  /** `__fixunsdfti` past one word: the top half by an exact division, the bottom half by an exact subtraction. */
  method FixWide(f: Layout, value: nat) returns (result: nat)
    requires Native(f) && IsPattern(f, value) && IsFinite(f, value) && !Negative(f, value)
    requires Times(f.One(), Pow2(64)) <= MagnitudeValue(f, value) < Times(f.One(), Pow2(128))
    ensures result == MagnitudeValue(f, value) / f.One()
  {
    assert f.word == 64;
    hide *;
    var top := TopHalf(f, value);
    var rest := BottomHalf(f, value, top);
    HalvesFit(f, value, top, rest);
    var low := ToUnsigned(f, rest, 64);
    result := Or(Shl(top, 64), low);
  }

  /** A test against a power of two, which anything that is not a number fails either way. */
  lemma AgainstPower(f: Layout, value: nat, k: nat)
    requires Native(f) && k <= 64
    ensures Ge(f, value, PowerPattern(f, k)) >= 0
          <==> !IsNan(f, value) && SignedValue(f, value) >= Times(f.One(), Pow2(k))
    ensures Lt(f, value, PowerPattern(f, k)) < 0
          <==> !IsNan(f, value) && SignedValue(f, value) < Times(f.One(), Pow2(k))
  {
    PowerValue(f, k);
    hide Value, Magnitude, IsNan, Compare, PowerPattern, Pow2;
    PredicatesMeetTheStandard(f, value, PowerPattern(f, k));
  }

  /** What C leaves undefined is an infinity and a value the type does not hold. */
  ghost predicate Convertible(f: Layout, value: nat, bits: nat) {
    IsNan(f, value) || (IsFinite(f, value) && MagnitudeValue(f, value) < Times(f.One(), Pow2(bits)))
  }

  /** The whole part of a magnitude. */
  ghost function Whole(f: Layout, value: nat): nat {
    DivBounds(MagnitudeValue(f, value), f.One());
    MagnitudeValue(f, value) / f.One()
  }

  lemma BelowWord(f: Layout, value: nat, bits: nat)
    requires IsFinite(f, value) && !Negative(f, value) && MagnitudeValue(f, value) < Times(f.One(), Pow2(bits))
    ensures Truncated(f, value) == MagnitudeValue(f, value) / f.One()
    ensures 0 <= Truncated(f, value) < Pow2(bits)
  {
    var v := MagnitudeValue(f, value);
    assert Truncated(f, value) == v / f.One();
    hide *;
    DivBounds(v, f.One());
    DivBelow(v, f.One(), Pow2(bits));
  }

  /** `__fixunsdfti`: the value truncated, exactly, at every finite value below 2^128, and zero for one that is
    * negative or not a number.
    */
  method FixUnsigned(f: Layout, value: nat) returns (result: nat)
    requires Native(f) && IsPattern(f, value)
    requires Negative(f, value) || Convertible(f, value, 128)
    ensures result == if IsNan(f, value) || Negative(f, value) then 0 else Whole(f, value)
  {
    assert Pow2(0) == 1;
    AgainstPower(f, value, 0);
    AgainstPower(f, value, 64);
    hide Value, Magnitude, IsNan, IsInfinite, Compare, PowerPattern, Pow2, MagnitudeValue, Times, Ge, Lt;
    if !(Ge(f, value, PowerPattern(f, 0)) >= 0) {
      if !IsNan(f, value) && !Negative(f, value) { ModSmall(MagnitudeValue(f, value), f.One()); }
      return 0;
    }
    if Lt(f, value, PowerPattern(f, 64)) < 0 {
      BelowWord(f, value, 64);
      result := ToUnsigned(f, value, 64);
    } else {
      result := FixWide(f, value);
    }
  }

  /** `__fixdfti`: truncated towards zero through the magnitude, down to -2^127 and with nothing overflowing. */
  method FixSigned(f: Layout, value: nat) returns (result: int)
    requires Native(f) && IsPattern(f, value) && Convertible(f, value, 128)
    requires IsNan(f, value) || -(Pow2(127) as int) <= Truncated(f, value) < Pow2(127)
    ensures result == if IsNan(f, value) then 0 else Truncated(f, value)
  {
    hide *;
    FlippedSign(f, value);
    NegativeBelowZero(f, value);
    MagnitudeBack(f, value, 128);
    if Lt(f, value, 0) < 0 {
      var unsigned := FixUnsigned(f, Flipped(f, value));
      result := AsSigned(128, Modulo(128, 0 - unsigned as int));
    } else {
      var unsigned := FixUnsigned(f, value);
      result := AsSigned(128, unsigned);
    }
  }

  /** The magnitude of a truncated value, put back under the sign in the unsigned type. */
  lemma MagnitudeBack(f: Layout, value: nat, width: nat)
    requires width >= 1 && IsPattern(f, value)
    ensures AsSigned(width, 0) == 0
    ensures MagnitudeValue(f, value) == 0 ==> Truncated(f, value) == 0
    ensures Whole(f, Flipped(f, value)) == Whole(f, value)
    ensures Convertible(f, value, width) ==> Convertible(f, Flipped(f, value), width)
    ensures var half: int := Pow2(width - 1);
      -half <= Truncated(f, value) < half ==>
        Truncated(f, value) == AsSigned(width,
          if Negative(f, value) then Modulo(width, 0 - Whole(f, value) as int) else Whole(f, value))
  {
    FlippedSign(f, value);
    DivBounds(MagnitudeValue(f, value), f.One());
    if MagnitudeValue(f, value) == 0 { ModSmall(0, f.One()); }
    var whole := Whole(f, value);
    assert Truncated(f, value) == if Negative(f, value) then 0 - whole else whole;
    hide Value, Magnitude, MagnitudeValue, Truncated, Whole, Flipped;
    if whole <= Pow2(width - 1) { NegatedPattern(width, whole); }
    NegatedPattern(width, 0);
  }

  /** The test for a sign that matters: a negative zero is not below zero, and truncates to zero as zero does. */
  lemma NegativeBelowZero(f: Layout, value: nat)
    requires IsPattern(f, value)
    ensures Lt(f, value, 0) < 0 <==> !IsNan(f, value) && Negative(f, value) && MagnitudeValue(f, value) > 0
  {
    SignAndMagnitude(f, 0, 0);
    LayoutFacts(f);
    Classes(f, 0);
    ValueOf(f, 0, 0);
    hide Value, Magnitude, IsNan, Compare;
    PredicatesMeetTheStandard(f, value, 0);
  }

  /** Widening keeps what a truncation sees. */
  lemma WidenedTruncates(f: Layout, g: Layout, p: nat, q: nat)
    requires Wider(f, g) && IsPattern(f, p) && IsWidened(f, g, p, q)
    ensures IsPattern(g, q) && (Negative(g, q) <==> Negative(f, p))
    ensures IsNan(g, q) <==> IsNan(f, p)
    ensures Convertible(f, p, 128) ==> Convertible(g, q, 128)
    ensures IsFinite(f, p) ==> Whole(g, q) == Whole(f, p) && Truncated(g, q) == Truncated(f, p)
  {
    Classes(g, q);
    if IsNan(f, p) {
      OrQuiet(f, FractionOf(f, p));
      MulStrict(0, QuietFraction(f, FractionOf(f, p)), Pow2(Between(f, g)));
    } else if IsFinite(f, p) {
      hide Value, Magnitude, IsNan, IsInfinite;
      Pow2Add(f.Bias() + f.fraction - 1, UnitShift(f, g));
      WholeMoved(MagnitudeValue(f, p), f.One(), Pow2(UnitShift(f, g)), Pow2(128));
    }
  }

  lemma WholeMoved(v: nat, one: nat, c: nat, limit: nat)
    requires one > 0 && c > 0
    ensures one * c > 0 && v * c / (one * c) == v / one
    ensures v < one * limit ==> v * c < one * c * limit
  {
    DivCancels(v, one, c);
    MulStrict(v, one * limit, c);
    MulAssoc(one, limit, c);
    MulAssoc(one, c, limit);
  }

  /** Every finite single has a 128-bit integer to be truncated to, so nothing is left undefined but infinities. */
  lemma SinglesFit(p: nat)
    requires IsFinite(Single, p)
    ensures Convertible(Single, p, 128)
  {
    hide Value, Unpack, Magnitude, ExponentOf, FractionOf;
    UnpackValue(Single, p);
    var (significand, stored) := Unpack(Single, p);
    assert Single.Top() == 255 && Single.Bias() == 127;
    FitsBits(Single, MagnitudeValue(Single, p), significand, stored, 128);
  }

  /** `__fixunssfti`: by way of the wider format, which is exact. */
  method FixUnsignedNarrow(f: Layout, g: Layout, value: nat) returns (result: nat)
    requires Wider(f, g) && Native(g) && IsPattern(f, value)
    requires Negative(f, value) || Convertible(f, value, 128)
    ensures result == if IsNan(f, value) || Negative(f, value) then 0 else Whole(f, value)
  {
    hide IsNan, IsFinite, Negative, Whole, IsWidened, Truncated;
    var wide := Extend(f, g, value);
    WidenedTruncates(f, g, value, wide);
    result := FixUnsigned(g, wide);
  }

  /** `__fixsfti`. */
  method FixSignedNarrow(f: Layout, g: Layout, value: nat) returns (result: int)
    requires Wider(f, g) && Native(g) && IsPattern(f, value) && Convertible(f, value, 128)
    requires IsNan(f, value) || -(Pow2(127) as int) <= Truncated(f, value) < Pow2(127)
    ensures result == if IsNan(f, value) then 0 else Truncated(f, value)
  {
    hide IsNan, IsFinite, Negative, Whole, IsWidened, Truncated;
    var wide := Extend(f, g, value);
    WidenedTruncates(f, g, value, wide);
    result := FixSigned(g, wide);
  }
}
