/** wide.c: multiplying and shifting an integer of two words in operations on one, for a target that holds it so. */
module WideMultiply {
  import opened Powers
  import opened Bits
  import opened Words

  const SIGN_WORD: Word := 0x8000_0000_0000_0000

  /** The number a pair is in the signed type. */
  function Signed(w: Wide): int {
    if w.high < SIGN_WORD then Number(w) else Number(w) - WORD * WORD
  }

  function SignedWord(x: Word): int { if x < SIGN_WORD then x else x - WORD }

  /** `__multi3`: the low half of the product, whatever the signs. The cross products reach only the high word. */
  function Multiply(left: Wide, right: Wide): Wide {
    var low := MultiplyWords(left.low, right.low);
    Wide(Cut(Cut(low.high + Cut(left.low * right.high)) + Cut(left.high * right.low)), low.low)
  }

  /** What is cut off the product is a multiple of 2^128, for the unsigned numbers and so for the signed ones. */
  lemma MultiplyIsExact(left: Wide, right: Wide)
    ensures Number(Multiply(left, right)) == Number(left) * Number(right) % (WORD * WORD)
    ensures Number(Multiply(left, right)) == Signed(left) * Signed(right) % (WORD * WORD)
  {
    var low := MultiplyWords(left.low, right.low);
    MultiplyWordsIsExact(left.low, right.low);
    PairsMultiply(left.low, left.high, right.low, right.high, Number(left), Number(right));
    var one, two := Times(left.low, right.high), Times(left.high, right.low);
    var n := Number(Multiply(left, right));
    var over := CutTwice(low.high, one, two);
    hide MultiplyWords, Cut;
    var k := left.high * right.high + over;
    assert Number(left) * Number(right) == k * (WORD * WORD) + n;
    DivModUnique(Number(left) * Number(right), WORD * WORD, k, n);
    SignedMultiples(left, right);
    var j := if left.high < SIGN_WORD then 0 else Number(right);
    var i := if right.high < SIGN_WORD then 0 else Signed(left);
    DivModUnique(Signed(left) * Signed(right), WORD * WORD, k - j - i, n);
  }

  lemma CutTwice(a: nat, b: nat, c: nat) returns (over: nat)
    ensures a + b + c == over * WORD + Cut(Cut(a + Cut(b)) + Cut(c))
  {
    over := b / WORD + c / WORD + (a + Cut(b)) / WORD + (Cut(a + Cut(b)) + Cut(c)) / WORD;
  }

  /** A signed operand differs from its pattern by a multiple of 2^128, and so does a product of two. */
  lemma SignedMultiples(left: Wide, right: Wide)
    ensures var j := if left.high < SIGN_WORD then 0 else Number(right);
      var i := if right.high < SIGN_WORD then 0 else Signed(left);
      Signed(left) * Signed(right) == Number(left) * Number(right) - (j + i) * (WORD * WORD)
  {
    hide Number;
    Distribute(Number(left), WORD * WORD, Number(right));
    Distribute(Number(right), WORD * WORD, Signed(left));
  }

  function Complement(x: Word): Word { WORD - 1 - x }

  /** The magnitude of a signed pair, by complementing and adding one. */
  function Magnitude(w: Wide): Wide {
    if w.high < SIGN_WORD then w else AddWide(Wide(Complement(w.high), Complement(w.low)), Wide(0, 1))
  }

  lemma MagnitudeIsAbsolute(w: Wide)
    ensures Number(Magnitude(w)) == if Signed(w) < 0 then 0 - Signed(w) else Signed(w)
    ensures Number(Magnitude(w)) <= SIGN_WORD * WORD
    ensures Signed(w) < 0 <==> w.high >= SIGN_WORD
  {
    var inverted := Wide(Complement(w.high), Complement(w.low));
    AddIsExact(inverted, Wide(0, 1));
    hide AddWide;
  }

  /** The flag on the four products of two magnitudes. */
  function TooLarge(a: Wide, b: Wide, negative: bool): bool {
    var low := MultiplyWords(a.low, b.low);
    var crossOne := MultiplyWords(a.high, b.low);
    var crossTwo := MultiplyWords(a.low, b.high);
    var top := MultiplyWords(a.high, b.high);
    var second := low.high + crossOne.low + crossTwo.low;
    var tooWide := !IsZeroWide(top) || crossOne.high != 0 || crossTwo.high != 0 || second / WORD != 0;
    var whole := Wide(Cut(second), low.low);
    var limit := Wide(SIGN_WORD, 0);
    tooWide || if negative then Exceeds(whole, limit) else AtLeast(whole, limit)
  }

  /** `__muloti4`: the product, and whether it did not fit, decided on four products of halves of magnitudes. */
  function MultiplyOverflows(left: Wide, right: Wide): (Wide, bool) {
    var negative := (left.high >= SIGN_WORD) != (right.high >= SIGN_WORD);
    (Multiply(left, right), TooLarge(Magnitude(left), Magnitude(right), negative))
  }

  /** The flag is up exactly where the mathematical product is outside the signed type, and the product is right
    * modulo 2^128 either way, which is right outright where the flag is down.
    */
  lemma OverflowIsExact(left: Wide, right: Wide)
    ensures var (product, overflow) := MultiplyOverflows(left, right);
      && (overflow <==> !(-((SIGN_WORD * WORD) as int) <= Signed(left) * Signed(right) < SIGN_WORD * WORD))
      && Number(product) == Signed(left) * Signed(right) % (WORD * WORD)
      && (!overflow ==> Signed(product) == Signed(left) * Signed(right))
  {
    hide MultiplyWords, Multiply, Magnitude, Cut, Signed, Number;
    MultiplyIsExact(left, right);
    MagnitudeIsAbsolute(left);
    MagnitudeIsAbsolute(right);
    MagnitudesOverflow(Magnitude(left), Magnitude(right), (left.high >= SIGN_WORD) != (right.high >= SIGN_WORD),
      Number(Magnitude(left)) * Number(Magnitude(right)));
    SignedProduct(Signed(left), Signed(right), Number(Magnitude(left)), Number(Magnitude(right)));
    SignedOfModulo(Multiply(left, right), Signed(left) * Signed(right));
  }

  lemma MagnitudesOverflow(a: Wide, b: Wide, negative: bool, product: nat)
    requires product == Number(a) * Number(b)
    ensures TooLarge(a, b, negative) <==> if negative then product > SIGN_WORD * WORD else product >= SIGN_WORD * WORD
  {
    hide MultiplyWords, Number, Cut;
    var low, crossOne := MultiplyWords(a.low, b.low), MultiplyWords(a.high, b.low);
    var crossTwo, top := MultiplyWords(a.low, b.high), MultiplyWords(a.high, b.high);
    FourProducts(a, b, low, crossOne, crossTwo, top);
    WholeOrTooWide(product, low, crossOne, crossTwo, top);
    WholeAgainstLimit(Wide(Cut(low.high + crossOne.low + crossTwo.low), low.low));
  }

  lemma WholeAgainstLimit(whole: Wide)
    ensures Number(whole) < WORD * WORD
    ensures Exceeds(whole, Wide(SIGN_WORD, 0)) <==> Number(whole) > SIGN_WORD * WORD
    ensures AtLeast(whole, Wide(SIGN_WORD, 0)) <==> Number(whole) >= SIGN_WORD * WORD
  {
    OrderIsNumeric(whole, Wide(SIGN_WORD, 0));
  }

  lemma WholeOrTooWide(product: nat, low: Wide, crossOne: Wide, crossTwo: Wide, top: Wide)
    requires product == low.low + (low.high + crossOne.low + crossTwo.low) * WORD
                        + (top.low + crossOne.high + crossTwo.high) * (WORD * WORD) + top.high * (WORD * WORD * WORD)
    ensures var second := low.high + crossOne.low + crossTwo.low;
      var tooWide := !IsZeroWide(top) || crossOne.high != 0 || crossTwo.high != 0 || second / WORD != 0;
      && (tooWide <==> product >= WORD * WORD)
      && (!tooWide ==> Number(Wide(Cut(second), low.low)) == product)
  {
  }

  lemma SignedProduct(x: int, y: int, a: nat, b: nat)
    requires a == (if x < 0 then 0 - x else x) && b == (if y < 0 then 0 - y else y)
    ensures x * y == if (x < 0) != (y < 0) then 0 - a * b else a * b
    ensures a * b >= 0
  {
    MulMono(0, a, b);
  }

  lemma SignedOfModulo(w: Wide, x: int)
    requires Number(w) == x % (WORD * WORD)
    ensures -((SIGN_WORD * WORD) as int) <= x < SIGN_WORD * WORD ==> Signed(w) == x
  {
  }

  /** `__ashlti3`. */
  function ShiftLeft(w: Wide, count: nat): Wide
    requires count <= 127
  {
    if count == 0 then w
    else if count >= 64 then Wide(ShlWord(w.low, count - 64), 0)
    else ShiftUp(w, count)
  }

  lemma ShiftLeftIsExact(w: Wide, count: nat)
    requires count <= 127
    ensures Number(ShiftLeft(w, count)) == Number(w) * Pow2(count) % (WORD * WORD)
  {
    if count == 0 {
      assert Pow2(0) == 1;
      NumberBelow(w);
      ModSmall(Number(w), WORD * WORD);
    } else if count >= 64 {
      ShiftLeftPastAWord(w, count - 64);
    } else {
      ShiftLeftWithinAWord(w, count);
    }
  }

  lemma ShiftLeftPastAWord(w: Wide, across: nat)
    requires across < 64
    ensures Cut(w.low * Pow2(across)) * WORD == Number(w) * Pow2(across + 64) % (WORD * WORD)
  {
    Pow2Words();
    Pow2Add(64, across);
    hide Pow2;
    LowWordToHigh(w, Pow2(across));
  }

  lemma ShiftLeftWithinAWord(w: Wide, count: nat)
    requires 1 <= count <= 63
    ensures Number(ShiftUp(w, count)) == Number(w) * Pow2(count) % (WORD * WORD)
  {
    hide Pow2, ShiftUp;
    ShiftUpIsExact(w, count);
    NumberBelow(ShiftUp(w, count));
    DivModUnique(Number(w) * Pow2(count), WORD * WORD, w.high / Pow2(64 - count), Number(ShiftUp(w, count)));
  }

  lemma LowWordToHigh(w: Wide, p: nat)
    requires p > 0
    ensures Number(w) * (WORD * p) % (WORD * WORD) == Cut(w.low * p) * WORD
  {
    var x := w.low * p;
    var k := w.high * p + x / WORD;
    DivModFacts(x, WORD);
    Distribute(w.high * WORD, w.low, p);
    assert Number(w) * (WORD * p) == Number(w) * p * WORD;
    assert w.high * WORD * p == w.high * p * WORD;
    DivModUnique(Number(w) * (WORD * p), WORD * WORD, k, Cut(x) * WORD);
  }

  /** `__lshrti3`. */
  function ShiftRight(w: Wide, count: nat): Wide
    requires count <= 127
  {
    if count == 0 then w
    else if count >= 64 then Wide(0, ShrWord(w.high, count - 64))
    else DropLow(w, count)
  }

  lemma ShiftRightIsExact(w: Wide, count: nat)
    requires count <= 127
    ensures Number(ShiftRight(w, count)) == Number(w) / Pow2(count)
  {
    if count == 0 {
      assert Pow2(0) == 1;
    } else if count >= 64 {
      HighWordDown(w, count - 64);
    } else {
      hide DropLow;
      DropLowIsExact(w, count);
    }
  }

  /** A signed word shifted right, which rounds towards minus infinity. */
  function ShrSigned(x: Word, k: nat): Word { Cut(SignedWord(x) / Pow2(k)) }

  /** `__ashrti3`: the sign is copied down from the top. */
  function ShiftRightSigned(w: Wide, count: nat): Wide
    requires count <= 127
  {
    if count == 0 then w
    else if count >= 64 then Wide(ShrSigned(w.high, 63), ShrSigned(w.high, count - 64))
    else Wide(ShrSigned(w.high, count), OrWord(ShrWord(w.low, count), ShlWord(w.high, 64 - count)))
  }

  lemma ShiftRightSignedIsExact(w: Wide, count: nat)
    requires count <= 127
    ensures Signed(ShiftRightSigned(w, count)) == Signed(w) / Pow2(count)
  {
    if count == 0 {
      assert Pow2(0) == 1;
    } else if count >= 64 {
      SignedPastAWord(w, count - 64);
    } else {
      SignedWithinAWord(w, count);
    }
  }

  lemma SignedPastAWord(w: Wide, across: nat)
    requires across < 64
    ensures Signed(Wide(ShrSigned(w.high, 63), ShrSigned(w.high, across))) == Signed(w) / Pow2(across + 64)
  {
    var p := Pow2(across);
    Pow2Words();
    Pow2Add(64, across);
    hide Pow2;
    SignedQuotient(w.high, p);
    SignFill(w.high);
    SignedNumber(w);
    SignedNumber(Wide(ShrSigned(w.high, 63), ShrSigned(w.high, across)));
    DivModUnique(Signed(w), WORD, SignedWord(w.high), w.low);
    DivDiv(Signed(w), WORD, p);
  }

  lemma SignedNumber(w: Wide)
    ensures Signed(w) == SignedWord(w.high) * WORD + w.low
  {
  }

  lemma SignedWithinAWord(w: Wide, count: nat)
    requires 1 <= count <= 63
    ensures Signed(ShiftRightSigned(w, count)) == Signed(w) / Pow2(count)
  {
    hide Pow2, Or, Cut;
    var p, q := Pow2(count), Pow2(64 - count);
    Complements(count);
    SignedQuotient(w.high, p);
    SignedRemainder(w.high, p, q);
    JoinWords(w.high, w.low, p, q, 64 - count);
    SignedDrop(w, p, q, SignedWord(w.high) / p);
    SignedNumber(ShiftRightSigned(w, count));
  }

  lemma SignedQuotient(x: Word, p: nat)
    requires p > 0
    ensures SignedWord(Cut(SignedWord(x) / p)) == SignedWord(x) / p
    ensures SignedWord(x) / p < 0 <==> x >= SIGN_WORD
  {
    var s := SignedWord(x);
    DivModFacts(s, p);
    var q := s / p;
    if s >= 0 {
      DivBounds(s, p);
    } else {
      if q >= 0 { MulMono(0, q, p); }
      if q < s { MulMono(q + 1, s, p); Distribute(q, 1, p); MulMono(1, p, 0 - s); SignedProductOf(s, p); }
    }
  }

  lemma SignedProductOf(s: int, p: int)
    ensures (0 - s) * p == 0 - s * p && p * (0 - s) == 0 - s * p
  {
  }

  lemma SignFill(x: Word)
    ensures ShrSigned(x, 63) == if x < SIGN_WORD then 0 else WORD - 1
  {
    assert Pow2(63) == SIGN_WORD by { Pow2Words(); assert Pow2(64) == 2 * Pow2(63); }
    hide Pow2;
    DivModUnique(SignedWord(x), SIGN_WORD, if x < SIGN_WORD then 0 else -1, if x < SIGN_WORD then x else x - SIGN_WORD);
  }

  lemma SignedRemainder(x: Word, p: nat, q: nat)
    requires p > 0 && p * q == WORD
    ensures SignedWord(x) % p == x % p
  {
    var s := SignedWord(x);
    DivModFacts(s, p);
    if x >= SIGN_WORD {
      Distribute(s / p, q, p);
      DivModUnique(x, p, s / p + q, s % p);
    }
  }

  lemma SignedDrop(w: Wide, p: nat, q: nat, u: int)
    requires p > 0 && p * q == WORD
    requires u == SignedWord(w.high) / p && SignedWord(w.high) % p == w.high % p
    ensures Signed(w) / p == u * WORD + (w.high % p * q + w.low / p)
  {
    var v, m, r := w.high % p, w.low / p, w.low % p;
    SignedNumber(w);
    DivModFacts(SignedWord(w.high), p);
    DivModFacts(w.low, p);
    SignedTerms(u, v, m, p, q);
    DivModUnique(Signed(w), p, u * WORD + (v * q + m), r);
  }

  lemma SignedTerms(u: int, v: int, m: int, p: int, q: int)
    requires p * q == WORD
    ensures (u * WORD + (v * q + m)) * p == (u * p + v) * WORD + m * p
  {
    Distribute(u * WORD, v * q + m, p);
    Distribute(v * q, m, p);
    MulAssoc(v, q, p);
    WordOut(u, p);
  }
}
