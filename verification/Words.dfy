/** A hundred and twenty eight bits as two words, and every operation on them written out in words: the `struct
  * wide` half of quad.c, and the product of two words that double.c, quad.c and wide.c all build from halves.
  * Each is exactly the operation of its name on the one number the pair stands for.
  */
module Words {
  import opened Powers
  import opened Bits
  import opened Sticky

  const WORD: nat := 0x1_0000_0000_0000_0000
  const HALF: nat := 0x1_0000_0000

  type Word = x: nat | x < WORD

  datatype Wide = Wide(high: Word, low: Word)

  function Number(w: Wide): nat { w.high * WORD + w.low }

  lemma NumberBelow(w: Wide)
    ensures Number(w) < WORD * WORD
  {
  }

  // What a word keeps of a number.
  function Cut(x: int): (r: Word)
    ensures r == x % WORD
    ensures 0 <= x < WORD ==> r == x
    ensures WORD <= x < 2 * WORD ==> r == x - WORD
    ensures 0 <= x + WORD < WORD ==> r == x + WORD
  {
    CutNear(x);
    x % WORD
  }

  lemma CutNear(x: int)
    ensures 0 <= x % WORD < WORD
    ensures 0 <= x < WORD ==> x % WORD == x
    ensures WORD <= x < 2 * WORD ==> x % WORD == x - WORD
    ensures 0 <= x + WORD < WORD ==> x % WORD == x + WORD
  {
  }

  function Bit(b: bool): Word { if b then 1 else 0 }

  predicate IsZeroWide(w: Wide) { w.high == 0 && w.low == 0 }

  predicate AtLeast(left: Wide, right: Wide) {
    if left.high != right.high then left.high > right.high else left.low >= right.low
  }

  predicate Exceeds(left: Wide, right: Wide) {
    if left.high != right.high then left.high > right.high else left.low > right.low
  }

  lemma OrderIsNumeric(left: Wide, right: Wide)
    ensures AtLeast(left, right) <==> Number(left) >= Number(right)
    ensures Exceeds(left, right) <==> Number(left) > Number(right)
    ensures left == right <==> Number(left) == Number(right)
    ensures IsZeroWide(left) <==> Number(left) == 0
  {
  }

  function AddWide(left: Wide, right: Wide): Wide {
    var low := Cut(left.low + right.low);
    Wide(Cut(left.high + right.high + Bit(low < left.low)), low)
  }

  function SubtractWide(left: Wide, right: Wide): Wide {
    Wide(Cut(left.high - right.high - Bit(left.low < right.low)), Cut(left.low - right.low))
  }

  /** The carry and the borrow come out right, and what is lost is only what is past the top. */
  lemma AddIsExact(left: Wide, right: Wide)
    ensures Number(AddWide(left, right))
            == Number(left) + Number(right) - if Number(left) + Number(right) < WORD * WORD then 0 else WORD * WORD
  {
    hide Cut;
  }

  lemma SubtractIsExact(left: Wide, right: Wide)
    ensures Number(SubtractWide(left, right))
            == Number(left) - Number(right) + if Number(left) >= Number(right) then 0 else WORD * WORD
  {
    hide Cut;
  }

  lemma OrWords(a: Word, b: Word)
    ensures Or(a, b) < WORD
  {
    Pow2Words();
    BitwiseBelow(a, b, 64);
  }

  // `a << k` and `a | b` on words.
  function ShlWord(a: Word, k: nat): Word { Cut(a * Pow2(k)) }

  function ShrWord(a: Word, k: nat): Word {
    DivBounds(a, Pow2(k));
    Shr(a, k)
  }

  function OrWord(a: Word, b: Word): Word {
    OrWords(a, b);
    Or(a, b)
  }

  lemma LowBitsBelow(a: Word, k: nat)
    ensures 0 <= And(a, Pow2(k) - 1) < WORD
  {
    var p := Pow2(k);
    AndMask(a, k);
    hide And, Pow2;
    DivBounds(a, p);
    DivModFacts(a, p);
    MulMono(0, a / p, p);
  }

  /** `(1 << k) - 1` as a mask. */
  function LowBits(a: Word, k: nat): Word
    requires k < 64
  {
    LowBitsBelow(a, k);
    And(a, Pow2(k) - 1)
  }

  function ShiftUp(w: Wide, up: nat): Wide
    requires 1 <= up <= 63
  {
    Wide(OrWord(ShlWord(w.high, up), ShrWord(w.low, 64 - up)), ShlWord(w.low, up))
  }

  function DropLow(w: Wide, down: nat): Wide
    requires 1 <= down <= 63
  {
    Wide(ShrWord(w.high, down), OrWord(ShrWord(w.low, down), ShlWord(w.high, 64 - down)))
  }

  /** The three cases of the sticky shift. */
  function ShiftDownWide(w: Wide, down: int): Wide {
    if down <= 0 then w
    else if down >= 128 then Wide(0, Bit(!IsZeroWide(w)))
    else if down >= 64 then
      var lost := OrWord(w.low, LowBits(w.high, down - 64));
      Wide(0, OrWord(ShrWord(w.high, down - 64), Bit(lost != 0)))
    else
      var kept := DropLow(w, down);
      WithSticky(kept, LowBits(w.low, down) != 0)
  }

  /** Shifting a word across a word boundary: what leaves the top is the quotient by the complement. */
  lemma AcrossBoundary(x: Word, p: nat, q: nat)
    requires p > 0 && q > 0 && p * q == WORD
    ensures Cut(x * q) == x % p * q
    ensures x * q == x / p * WORD + x % p * q
    ensures x % p * q + q <= WORD && x / p < q
  {
    var u, v := x / p, x % p;
    DivModFacts(x, p);
    Distribute(u * p, v, q);
    MulAssoc(u, p, q);
    MulMono(v + 1, p, q);
    Distribute(v, 1, q);
    MulMono(0, v, q);
    DivModUnique(x * q, WORD, u, v * q);
    DivBelow(x, p, q);
  }

  lemma Complements(k: nat)
    requires k <= 64
    ensures Pow2(k) * Pow2(64 - k) == WORD
    ensures Pow2(k) <= WORD
  {
    Pow2Add(k, 64 - k);
    Pow2Words();
    Pow2Mono(k, 64);
  }

  lemma ModZero(a: nat, q: nat)
    requires q > 0
    ensures a * q % q == 0
  {
    DivModUnique(a * q, q, a, 0);
  }

  lemma JoinWords(x: Word, y: Word, p: nat, q: nat, k: nat)
    requires p > 0 && q > 0 && p * q == WORD && q == Pow2(k)
    ensures Or(Cut(x * q), y / p) == x % p * q + y / p < WORD
    ensures Or(y / p, Cut(x * q)) == x % p * q + y / p
  {
    hide Or, Pow2, Cut;
    AcrossBoundary(x, p, q);
    AcrossBoundary(y, p, q);
    ModZero(x % p, q);
    OrSum(x % p * q, y / p, k);
  }

  lemma ShiftUpParts(w: Wide, up: nat)
    requires 1 <= up <= 63
    ensures var p, q := Pow2(up), Pow2(64 - up);
      && p * q == WORD
      && ShiftUp(w, up).high == w.high % q * p + w.low / q
      && ShiftUp(w, up).low == w.low % q * p
  {
    hide Pow2, Or, Cut;
    var p, q := Pow2(up), Pow2(64 - up);
    Complements(up);
    JoinWords(w.high, w.low, q, p, up);
    AcrossBoundary(w.low, q, p);
  }

  /** Shifting up multiplies, and what is lost is the high bits that leave the top. */
  lemma ShiftUpIsExact(w: Wide, up: nat)
    requires 1 <= up <= 63
    ensures Number(w) * Pow2(up) == Number(ShiftUp(w, up)) + w.high / Pow2(64 - up) * (WORD * WORD)
    ensures Number(w) * Pow2(up) < WORD * WORD ==> Number(ShiftUp(w, up)) == Number(w) * Pow2(up)
  {
    hide Pow2, ShiftUp;
    ShiftUpParts(w, up);
    ShiftUpTerms(w, Pow2(up), Pow2(64 - up), ShiftUp(w, up));
  }

  lemma ShiftUpTerms(w: Wide, p: nat, q: nat, shifted: Wide)
    requires p > 0 && q > 0 && p * q == WORD
    requires shifted.high == w.high % q * p + w.low / q && shifted.low == w.low % q * p
    ensures Number(w) * p == Number(shifted) + w.high / q * (WORD * WORD)
    ensures Number(w) * p < WORD * WORD ==> Number(shifted) == Number(w) * p
  {
    hide Cut;
    AcrossBoundary(w.high, q, p);
    AcrossBoundary(w.low, q, p);
    DivBounds(w.high, q);
    TimesNumber(w, p);
    ColumnsOfShift(w.high / q, w.high % q * p, w.low / q, w.low % q * p, Times(w.high, p), Times(w.low, p));
  }

  lemma TimesNumber(w: Wide, p: nat)
    ensures Number(w) * p == Times(w.high, p) * WORD + Times(w.low, p)
  {
    Distribute(w.high * WORD, w.low, p);
    assert w.high * WORD * p == w.high * p * WORD;
  }

  lemma ColumnsOfShift(u: nat, v: nat, m: nat, r: nat, high: nat, low: nat)
    requires high == u * WORD + v && low == m * WORD + r
    ensures high * WORD + low == (v + m) * WORD + r + u * (WORD * WORD)
  {
  }

  lemma DropLowParts(w: Wide, down: nat)
    requires 1 <= down <= 63
    ensures var p, q := Pow2(down), Pow2(64 - down);
      && p * q == WORD
      && DropLow(w, down).high == w.high / p
      && DropLow(w, down).low == w.high % p * q + w.low / p
  {
    var p, q := Pow2(down), Pow2(64 - down);
    Complements(down);
    hide Pow2, Or, Cut;
    JoinWords(w.high, w.low, p, q, 64 - down);
  }

  lemma DropLowIsExact(w: Wide, down: nat)
    requires 1 <= down <= 63
    ensures Number(DropLow(w, down)) == Number(w) / Pow2(down)
    ensures w.low % Pow2(down) == Number(w) % Pow2(down)
  {
    hide Pow2, DropLow;
    DropLowParts(w, down);
    DropTerms(w, Pow2(down), Pow2(64 - down), DropLow(w, down));
    DivModUnique(Number(w), Pow2(down), Number(DropLow(w, down)), w.low % Pow2(down));
  }

  lemma DropTerms(w: Wide, p: nat, q: nat, kept: Wide)
    requires p > 0 && p * q == WORD
    requires kept.high == w.high / p && kept.low == w.high % p * q + w.low / p
    ensures Number(w) == Number(kept) * p + w.low % p && 0 <= w.low % p < p
  {
    var u, v, m := w.high / p, w.high % p, w.low / p;
    DivModFacts(w.high, p);
    DivModFacts(w.low, p);
    Distribute(u * WORD, v * q + m, p);
    Distribute(v * q, m, p);
    MulAssoc(v, q, p);
    assert u * WORD * p == u * p * WORD;
  }

  /** The three-case shift is one sticky shift of one number, at every distance. */
  lemma ShiftDownIsExact(w: Wide, down: nat)
    ensures Number(ShiftDownWide(w, down)) == RoundOdd(Number(w), Pow2(down))
  {
    if down == 0 {
      assert Pow2(0) == 1;
    } else if down >= 128 {
      ShiftDownToNothing(w, down);
    } else if down >= 64 {
      ShiftDownPastAWord(w, down - 64);
    } else {
      ShiftDownWithinAWord(w, down);
    }
  }

  lemma ShiftDownToNothing(w: Wide, down: nat)
    requires down >= 128
    ensures Number(ShiftDownWide(w, down)) == RoundOdd(Number(w), Pow2(down))
  {
    hide Pow2;
    Pow2Words();
    Pow2Add(64, 64);
    Pow2Mono(128, down);
    NumberBelow(w);
    OrderIsNumeric(w, Wide(0, 0));
    ModSmall(Number(w), Pow2(down));
  }

  lemma ShiftDownWithinAWord(w: Wide, down: nat)
    requires 1 <= down < 64
    ensures Number(ShiftDownWide(w, down)) == RoundOdd(Number(w), Pow2(down))
  {
    hide Pow2, DropLow, And, Or;
    DropLowIsExact(w, down);
    AndMask(w.low, down);
    StickyWord(DropLow(w, down), LowBits(w.low, down) != 0);
  }

  lemma ShiftDownPastAWord(w: Wide, across: nat)
    requires across < 64
    ensures Number(ShiftDownWide(w, across + 64)) == RoundOdd(Number(w), Pow2(across + 64))
  {
    hide Pow2, And, Or;
    var p := Pow2(across);
    Pow2Words();
    Pow2Add(64, across);
    AndMask(w.high, across);
    OrZeroIff(w.low, LowBits(w.high, across));
    OrBit(ShrWord(w.high, across), Bit(OrWord(w.low, LowBits(w.high, across)) != 0));
    PastAWord(w, p);
  }

  lemma PastAWord(w: Wide, p: nat)
    requires p > 0
    ensures WORD * p > 0 && Number(w) / (WORD * p) == w.high / p
    ensures Number(w) % (WORD * p) == 0 <==> w.low == 0 && w.high % p == 0
  {
    DivModUnique(Number(w), WORD, w.high, w.low);
    DivDiv(Number(w), WORD, p);
    DivModFacts(w.high, p);
  }

  lemma HighWordDown(w: Wide, across: nat)
    ensures w.high / Pow2(across) == Number(w) / Pow2(across + 64)
  {
    Pow2Words();
    Pow2Add(64, across);
    hide Pow2;
    PastAWord(w, Pow2(across));
  }

  /** The two-word shift of double.c, whose result is one word. */
  function ShiftDownToWord(high: Word, low: Word, down: nat): Word
    requires 1 <= down <= 63
  {
    OrWord(OrWord(ShlWord(high, 64 - down), ShrWord(low, down)), Bit(LowBits(low, down) != 0))
  }

  lemma ShiftDownToWordIsExact(w: Wide, down: nat)
    requires 1 <= down <= 63 && w.high < Pow2(down)
    ensures ShiftDownToWord(w.high, w.low, down) == RoundOdd(Number(w), Pow2(down))
  {
    hide Pow2, And, Or, Cut;
    ShiftDownWithinAWord(w, down);
    Complements(down);
    JoinWords(w.high, w.low, Pow2(down), Pow2(64 - down), 64 - down);
    ModSmall(w.high, Pow2(down));
  }

  lemma {:induction false} OrZeroIff(a: nat, b: nat)
    ensures Or(a, b) == 0 <==> a == 0 && b == 0
  {
    if a > 0 || b > 0 { OrZeroIff(a / 2, b / 2); }
  }

  /** `multiply_words`, `multiply_wide` of double.c and `product_of_halves`: the product of two words from the
    * four products of their halves, high word first.
    */
  function MultiplyWords(left: Word, right: Word): Wide {
    var leftLow, leftHigh := left % HALF, left / HALF;
    var rightLow, rightHigh := right % HALF, right / HALF;
    var lowLow, crossOne := Cut(leftLow * rightLow), Cut(leftHigh * rightLow);
    var crossTwo, highHigh := Cut(leftLow * rightHigh), Cut(leftHigh * rightHigh);
    var middle := Cut(lowLow / HALF + crossOne % HALF + crossTwo % HALF);
    Wide(Cut(highHigh + crossOne / HALF + crossTwo / HALF + middle / HALF), OrWord(lowLow % HALF, Cut(middle * HALF)))
  }

  lemma HalfProduct(a: nat, b: nat)
    requires a < HALF && b < HALF
    ensures a * b <= (HALF - 1) * (HALF - 1)
  {
    MulMono(a, HALF - 1, b);
    MulMono(b, HALF - 1, HALF - 1);
  }

  lemma MultiplyWordsIsExact(left: Word, right: Word)
    ensures Number(MultiplyWords(left, right)) == left * right
  {
    hide Or, Cut;
    var leftLow, leftHigh := left % HALF, left / HALF;
    var rightLow, rightHigh := right % HALF, right / HALF;
    HalfProduct(leftLow, rightLow);
    HalfProduct(leftHigh, rightLow);
    HalfProduct(leftLow, rightHigh);
    HalfProduct(leftHigh, rightHigh);
    HalvesMultiply(leftLow, leftHigh, rightLow, rightHigh, left, right);
    Columns(leftLow * rightLow, leftHigh * rightLow, leftLow * rightHigh, leftHigh * rightHigh, left * right);
  }

  lemma HalvesMultiply(a: nat, b: nat, c: nat, d: nat, left: nat, right: nat)
    requires left == b * HALF + a && right == d * HALF + c
    ensures left * right == b * d * WORD + (b * c + a * d) * HALF + a * c
  {
    Distribute(b * HALF, a, right);
    Distribute(d * HALF, c, b);
    Distribute(d * HALF, c, a);
  }

  /** The three columns of the product, with the carries between them. */
  lemma Columns(lowLow: nat, crossOne: nat, crossTwo: nat, highHigh: nat, product: nat)
    requires lowLow <= (HALF - 1) * (HALF - 1) && crossOne <= (HALF - 1) * (HALF - 1)
    requires crossTwo <= (HALF - 1) * (HALF - 1) && highHigh <= (HALF - 1) * (HALF - 1)
    requires product == highHigh * WORD + (crossOne + crossTwo) * HALF + lowLow
    ensures var middle := lowLow / HALF + crossOne % HALF + crossTwo % HALF;
      var high := highHigh + crossOne / HALF + crossTwo / HALF + middle / HALF;
      && Cut(middle) == middle
      && high < WORD
      && Cut(middle * HALF) == middle % HALF * HALF
      && high * WORD + Or(lowLow % HALF, Cut(middle * HALF)) == product
  {
    var middle := lowLow / HALF + crossOne % HALF + crossTwo % HALF;
    var high := highHigh + crossOne / HALF + crossTwo / HALF + middle / HALF;
    assert Cut(middle * HALF) == middle % HALF * HALF;
    Pow2Words();
    ModZero(middle % HALF, HALF);
    OrSum(middle % HALF * HALF, lowLow % HALF, 32);
    ColumnsAdd(lowLow, crossOne, crossTwo, highHigh);
  }

  lemma ColumnsAdd(lowLow: nat, crossOne: nat, crossTwo: nat, highHigh: nat)
    ensures var middle := lowLow / HALF + crossOne % HALF + crossTwo % HALF;
      var high := highHigh + crossOne / HALF + crossTwo / HALF + middle / HALF;
      highHigh * WORD + (crossOne + crossTwo) * HALF + lowLow == high * WORD + (middle % HALF * HALF + lowLow % HALF)
  {
  }

  // Four words as one number, the lowest word first.
  function Number4(p: seq<Word>): nat
    requires |p| == 4
  {
    p[0] + p[1] * WORD + p[2] * (WORD * WORD) + p[3] * (WORD * WORD * WORD)
  }

  /** A column with a word added to it, and the carry told by the sum coming out below what went in. */
  lemma CarryOfSum(column: Word, addend: Word)
    ensures column + addend == Cut(column + addend) + Bit(Cut(column + addend) < addend) * WORD
  {
  }

  /** A word added to a column, and the carry out of it. */
  method AddToColumn(column: Word, addend: Word) returns (sum: Word, carry: Word)
    ensures column + addend == sum + carry * WORD && carry <= 1
  {
    CarryOfSum(column, addend);
    sum := Cut(column + addend);
    carry := Bit(sum < addend);
  }

  /** `multiply_wide`: the four word products added into the four columns in place, each with its own carry. */
  method MultiplyWide(left: Wide, right: Wide, product: array<Word>)
    requires product.Length == 4
    modifies product
    ensures Number4(product[..]) == Number(left) * Number(right)
  {
    hide Number, Cut, MultiplyWords;
    var low := MultiplyWords(left.low, right.low);
    var crossOne := MultiplyWords(left.high, right.low);
    var crossTwo := MultiplyWords(left.low, right.high);
    var high := MultiplyWords(left.high, right.high);
    FourProducts(left, right, low, crossOne, crossTwo, high);
    product[0] := low.low;
    var second, carry := SumColumn(low.high, crossOne.low, crossTwo.low, 0);
    product[1] := second;
    var third, carryUp := SumColumn(high.low, crossOne.high, crossTwo.high, carry);
    product[2] := third;
    TopColumn(left, right, low.low, low.high + crossOne.low + crossTwo.low, second, carry,
      high.low + crossOne.high + crossTwo.high, third, carryUp, high.high);
    product[3] := high.high + carryUp;
  }

  /** One column of the product, and what it carries into the next. */
  method SumColumn(start: Word, one: Word, two: Word, below: Word) returns (column: Word, carry: Word)
    requires below <= 2
    ensures start + one + two + below == column + carry * WORD
    ensures carry <= 3 && (below == 0 ==> carry <= 2)
  {
    var carryOne, carryTwo, carryThree;
    column, carryOne := AddToColumn(start, one);
    column, carryTwo := AddToColumn(column, two);
    column, carryThree := AddToColumn(column, below);
    carry := carryOne + carryTwo + carryThree;
  }

  lemma FourProducts(left: Wide, right: Wide, low: Wide, crossOne: Wide, crossTwo: Wide, high: Wide)
    requires low == MultiplyWords(left.low, right.low) && crossOne == MultiplyWords(left.high, right.low)
    requires crossTwo == MultiplyWords(left.low, right.high) && high == MultiplyWords(left.high, right.high)
    ensures Number(left) * Number(right)
            == low.low + (low.high + crossOne.low + crossTwo.low) * WORD
               + (high.low + crossOne.high + crossTwo.high) * (WORD * WORD) + high.high * (WORD * WORD * WORD)
  {
    hide MultiplyWords;
    MultiplyWordsIsExact(left.low, right.low);
    MultiplyWordsIsExact(left.high, right.low);
    MultiplyWordsIsExact(left.low, right.high);
    MultiplyWordsIsExact(left.high, right.high);
    PairsMultiply(left.low, left.high, right.low, right.high, Number(left), Number(right));
  }

  lemma PairsMultiply(a: nat, b: nat, c: nat, d: nat, left: nat, right: nat)
    requires left == b * WORD + a && right == d * WORD + c
    ensures left * right == b * d * (WORD * WORD) + (b * c + a * d) * WORD + a * c
  {
    Distribute(b * WORD, a, right);
    Distribute(d * WORD, c, b);
    Distribute(d * WORD, c, a);
  }

  /** The columns add up to the product, and the top one has nowhere to carry to and does not. */
  lemma TopColumn(left: Wide, right: Wide, p0: Word, sum1: nat, p1: Word, carry: nat, sum2: nat, p2: Word,
            carryUp: nat, top: nat)
    requires Number(left) * Number(right) == p0 + sum1 * WORD + sum2 * (WORD * WORD) + top * (WORD * WORD * WORD)
    requires sum1 == p1 + carry * WORD && sum2 + carry == p2 + carryUp * WORD
    ensures Number(left) * Number(right) == p0 + p1 * WORD + p2 * (WORD * WORD) + (top + carryUp) * (WORD * WORD * WORD)
    ensures top + carryUp < WORD
  {
    TopBound(Number(left), Number(right), p0 + p1 * WORD + p2 * (WORD * WORD), top + carryUp);
  }

  lemma TopBound(a: nat, b: nat, rest: nat, top: nat)
    requires a < WORD * WORD && b < WORD * WORD && a * b == rest + top * (WORD * WORD * WORD)
    ensures top < WORD
  {
    MulMono(a, WORD * WORD - 1, b);
    MulMono(b, WORD * WORD - 1, WORD * WORD - 1);
  }

  /** `shift_down_product`, whose distance is past the lowest word and not past the second. */
  function ShiftDownProduct(p: seq<Word>, across: nat): Wide
    requires |p| == 4 && 1 <= across <= 63
  {
    var lost := OrWord(p[0], LowBits(p[1], across));
    var kept := Wide(OrWord(ShrWord(p[2], across), ShlWord(p[3], 64 - across)),
                     OrWord(ShrWord(p[1], across), ShlWord(p[2], 64 - across)));
    WithSticky(kept, lost != 0)
  }

  lemma ProductWordsShifted(p: seq<Word>, across: nat)
    requires |p| == 4 && 1 <= across <= 63 && p[3] < Pow2(across)
    ensures var d, q := Pow2(across), Pow2(64 - across);
      && d * q == WORD
      && OrWord(ShrWord(p[2], across), ShlWord(p[3], 64 - across)) == p[3] * q + p[2] / d
      && OrWord(ShrWord(p[1], across), ShlWord(p[2], 64 - across)) == p[2] % d * q + p[1] / d
      && (OrWord(p[0], LowBits(p[1], across)) == 0 <==> p[0] == 0 && p[1] % d == 0)
  {
    var d, q := Pow2(across), Pow2(64 - across);
    Complements(across);
    hide Pow2, And, Or, Cut;
    JoinWords(p[3], p[2], d, q, 64 - across);
    JoinWords(p[2], p[1], d, q, 64 - across);
    ModSmall(p[3], d);
    AndMask(p[1], across);
    OrZeroIff(p[0], LowBits(p[1], across));
  }

  lemma ShiftDownProductIsExact(p: seq<Word>, across: nat)
    requires |p| == 4 && 1 <= across <= 63 && p[3] < Pow2(across)
    ensures Number(ShiftDownProduct(p, across)) == RoundOdd(Number4(p), Pow2(across + 64))
  {
    hide Pow2, OrWord, ShrWord, ShlWord, LowBits, Number4;
    var d, q := Pow2(across), Pow2(64 - across);
    Pow2Words();
    Pow2Add(64, across);
    assert Pow2(across + 64) == WORD * d;
    ProductWordsShifted(p, across);
    UpperWords(p, d, q);
    StickyWord(Wide(OrWord(ShrWord(p[2], across), ShlWord(p[3], 64 - across)),
                    OrWord(ShrWord(p[1], across), ShlWord(p[2], 64 - across))),
               OrWord(p[0], LowBits(p[1], across)) != 0);
  }

  /** The lowest bit of a pair set where it is to be. */
  function WithSticky(w: Wide, sticky: bool): Wide { Wide(w.high, OrWord(w.low, Bit(sticky))) }

  lemma StickyWord(w: Wide, sticky: bool)
    ensures Number(WithSticky(w, sticky)) == Stuck(Number(w), sticky)
    ensures Number(w) % 2 == w.low % 2
  {
    ParityOfWide(w);
    OrBit(w.low, Bit(sticky));
    hide Or;
  }

  lemma ParityOfWide(w: Wide)
    ensures Number(w) % 2 == w.low % 2
  {
  }

  lemma UpperWords(p: seq<Word>, d: nat, q: nat)
    requires |p| == 4 && d > 0 && q > 0 && d * q == WORD && p[3] < d
    ensures var kept := (p[3] * q + p[2] / d) * WORD + (p[2] % d * q + p[1] / d);
      && WORD * d > 0
      && Number4(p) / (WORD * d) == kept
      && (Number4(p) % (WORD * d) == 0 <==> p[0] == 0 && p[1] % d == 0)
  {
    var upper := p[3] * (WORD * WORD) + p[2] * WORD + p[1];
    assert Number4(p) == upper * WORD + p[0];
    DivModUnique(Number4(p), WORD, upper, p[0]);
    DivDiv(Number4(p), WORD, d);
    DivModFacts(p[1], d);
    DivModFacts(p[2], d);
    var kept := (p[3] * q + p[2] / d) * WORD + (p[2] % d * q + p[1] / d);
    UpperTerms(p[3], p[2], p[1], d, q);
    DivModUnique(upper, d, kept, p[1] % d);
  }

  lemma UpperTerms(t: Word, u: Word, v: Word, d: nat, q: nat)
    requires d > 0 && d * q == WORD
    ensures t * (WORD * WORD) + u * WORD + v == ((t * q + u / d) * WORD + (u % d * q + v / d)) * d + v % d
  {
    DivModFacts(u, d);
    DivModFacts(v, d);
    Distribute((t * q + u / d) * WORD, u % d * q + v / d, d);
    Distribute(u % d * q, v / d, d);
    MulAssoc(u % d, q, d);
    Distribute(t * q, u / d, d);
    MulAssoc(t, q, d);
    WordOut(t * q + u / d, d);
  }

  lemma WordOut(x: int, d: int)
    ensures x * WORD * d == x * d * WORD
  {
  }
}
