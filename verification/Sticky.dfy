/** Shifting a significand down while remembering, in its lowest bit, that something fell off.
  *
  * The shift is a rounding of an exact quotient to the odd one of its two neighbours, and that is the
  * form in which it composes: see `RoundOddTwice`, and `Agrees` for what survives a shift back up.
  */
module Sticky {
  import opened Powers
  import opened Bits

  /** The exact quotient where there is one, and otherwise the odd one of the two integers around it. */
  function RoundOdd(num: nat, den: nat): nat
    requires den > 0
  {
    var q := num / den;
    if num % den != 0 && q % 2 == 0 then q + 1 else q
  }

  /** A quotient with its lowest bit set where something was left over. */
  function Stuck(n: nat, remains: bool): nat { if remains && n % 2 == 0 then n + 1 else n }

  lemma StuckIsRoundOdd(num: nat, den: nat)
    requires den > 0 && num / den >= 0
    ensures RoundOdd(num, den) == Stuck(num / den, num % den != 0)
  {
  }

  /** The two ways a quotient gets its sticky bit are one rounding to odd. */
  lemma StuckHalved(n: nat, remains: bool)
    ensures RoundOdd(Stuck(n, remains), 2) == Stuck(n / 2, remains || n % 2 == 1)
  {
  }

  lemma StuckRange(h: nat, n: nat, remains: bool)
    requires h <= n < 4 * h
    ensures h <= Stuck(n, remains) < 4 * h
    ensures Stuck(n, remains) < 2 * h <==> n < 2 * h
  {
    if n % 2 == 0 { EvenBelow(n / 2, h); }
  }

  lemma EvenBelow(k: nat, h: nat)
    ensures 2 * k < 4 * h ==> 2 * k + 1 < 4 * h
    ensures 2 * k < 2 * h <==> 2 * k + 1 < 2 * h
  {
  }

  /** `shift_down` on a word of `word` bits, branches and bit operators as the C has them. */
  function ShiftDown(word: nat, significand: nat, down: nat): nat {
    if down >= word then (if significand != 0 then 1 else 0)
    else
      var lost := And(significand, Pow2(down) - 1);
      Or(Shr(significand, down), if lost != 0 then 1 else 0)
  }

  lemma ShiftDownRoundsToOdd(word: nat, significand: nat, down: nat)
    requires significand < Pow2(word)
    ensures ShiftDown(word, significand, down) == RoundOdd(significand, Pow2(down))
  {
    if down >= word {
      Pow2Mono(word, down);
      ModSmall(significand, Pow2(down));
    } else {
      AndMask(significand, down);
      OrBit(Shr(significand, down), if And(significand, Pow2(down) - 1) != 0 then 1 else 0);
    }
  }

  /** `s` stands where the exact quotient `num / den` stands among the multiples of `g`: on the same
    * multiple where `s` is one, and strictly between the same two where it is not. A comparison of `s`
    * with any multiple of `g` is then the comparison of the exact quotient with it.
    */
  ghost predicate Agrees(s: nat, num: int, den: int, g: int)
    requires g > 0
  {
    if s % g == 0 then num == s * den
    else s / g * g * den < num < (s / g + 1) * g * den
  }

  lemma AgreesIntro(s: nat, num: int, den: int, g: int, q: int)
    requires g > 0 && den > 0
    requires if s == q * g then num == s * den else q * g < s < (q + 1) * g && q * g * den < num < (q + 1) * g * den
    ensures Agrees(s, num, den, g)
  {
    if s == q * g {
      DivModUnique(s, g, q, 0);
    } else {
      assert (q + 1) * g == q * g + g;
      DivModUnique(s, g, q, s - q * g);
    }
  }

  lemma RoundOddAgrees(num: nat, den: nat)
    requires den > 0
    ensures Agrees(RoundOdd(num, den), num, den, 2)
  {
    var q := num / den;
    DivModFacts(num, den);
    var w := q / 2;
    var s := RoundOdd(num, den);
    BetweenEvens(q, w, den);
    AgreesIntro(s, num, den, 2, w);
  }

  lemma BetweenEvens(q: int, w: int, den: int)
    requires den > 0 && w == q / 2
    ensures w * 2 * den == if q % 2 == 0 then q * den else q * den - den
    ensures (w + 1) * 2 * den == w * 2 * den + 2 * den
  {
    Distribute(q, 1, den);
    Distribute(w * 2, 2, den);
  }

  /** Agreement about the multiples of `g` is agreement about the multiples of its multiples. */
  lemma AgreesCoarser(s: nat, num: int, den: int, g: int, k: int)
    requires g > 0 && den > 0 && k > 0 && Agrees(s, num, den, g)
    ensures g * k > 0 && Agrees(s, num, den, g * k)
  {
    MulStrict(0, g, k);
    var h := g * k;
    var q := s / h;
    DivModFacts(s, h);
    Distribute(q, 1, h);
    if s % g == 0 {
      MulStrict(q * h, s, den);
      MulStrict(s, (q + 1) * h, den);
    } else {
      DivDiv(s, g, k);
      DivModFacts(s, g);
      DivModFacts(s / g, k);
      MulMono(0, s / g % k, g);
      CoarserBounds(s / g, q, g, k, den);
    }
  }

  lemma CoarserBounds(u: int, q: int, g: int, k: int, den: int)
    requires g > 0 && k > 0 && den > 0 && q * k <= u < q * k + k
    ensures q * (g * k) * den <= u * g * den && (u + 1) * g * den <= (q + 1) * (g * k) * den
  {
    Distribute(q, 1, k);
    MulMono(q * k, u, g);
    MulMono(u + 1, (q + 1) * k, g);
    assert q * k * g == q * (g * k) && (q + 1) * k * g == (q + 1) * (g * k);
    MulMono(q * k * g, u * g, den);
    MulMono((u + 1) * g, (q + 1) * k * g, den);
  }

  /** Rounding to odd once more, by an even divisor, is rounding to odd once by the product. */
  lemma RoundOddTwice(num: nat, a: nat, b: nat)
    requires a > 0 && b > 0 && b % 2 == 0
    ensures a * b > 0
    ensures RoundOdd(RoundOdd(num, a), b) == RoundOdd(num, a * b)
  {
    DivDiv(num, a, b);
    DivModFacts(num, a);
    var q := num / a;
    var v := q % b;
    RoundOddOf(q, num % a != 0, b);
    if v > 0 { MulStrict(0, v, a); }
  }

  /** Setting the lowest bit of a quotient moves neither the multiple of an even number below it nor,
    * where it was set, the answer to whether it is one.
    */
  lemma RoundOddOf(q: nat, sticky: bool, b: nat)
    requires b > 0 && b % 2 == 0
    ensures var t := if sticky && q % 2 == 0 then q + 1 else q;
      RoundOdd(t, b) == if (sticky || q % b != 0) && q / b % 2 == 0 then q / b + 1 else q / b
  {
    var u, v := q / b, q % b;
    DivModFacts(q, b);
    ParityOfRemainder(q, b);
    if sticky && q % 2 == 0 {
      DivModUnique(q + 1, b, u, v + 1);
    }
  }

  /** A shift down by one place or more, from agreement about the multiples of four to the same agreement. */
  lemma RoundOddAfterFour(s: nat, num: int, den: int, d: nat)
    requires den > 0 && d > 0 && d % 2 == 0 && Agrees(s, num, den, 4)
    ensures den * d > 0
    ensures Agrees(RoundOdd(s, d), num, den * d, 4)
  {
    hide Agrees, RoundOdd;
    AgreesCoarser(s, num, den, 4, d / 2);
    assert 4 * (d / 2) == 2 * d;
    RoundOddAfter(s, num, den, d);
    AgreesCoarser(RoundOdd(s, d), num, den * d, 2, 2);
  }

  lemma Regroup(w: int, d: int, den: int)
    ensures w * (2 * d) * den == w * 2 * (den * d)
  {
    assert w * (2 * d) == w * 2 * d;
    assert w * 2 * d * den == w * 2 * (d * den);
  }

  lemma RegroupExact(s: int, t: int, d: int, den: int)
    requires s == t * d
    ensures s * den == t * (den * d)
  {
    assert t * d * den == t * (d * den);
  }

  /** Shifting down after agreement: from the multiples of `2·d`, agreement about the even numbers. */
  lemma RoundOddAfter(s: nat, num: int, den: int, d: nat)
    requires den > 0 && d > 0 && Agrees(s, num, den, 2 * d)
    ensures den * d > 0
    ensures Agrees(RoundOdd(s, d), num, den * d, 2)
  {
    MulStrict(0, den, d);
    DivModFacts(s, d);
    var w := s / d / 2;
    DivDiv(s, d, 2);
    assert d * 2 == 2 * d;
    Regroup(w, d, den);
    Regroup(w + 1, d, den);
    HalvesEven(s, d);
    var t := RoundOdd(s, d);
    var g := 2 * d;
    var lo, hi := w * 2 * (den * d), (w + 1) * 2 * (den * d);
    assert lo == w * g * den && hi == (w + 1) * g * den;
    if s % g == 0 {
      assert s * den == t * (den * d) by { RegroupExact(s, t, d, den); }
    } else {
      assert t == 2 * w + 1 && lo < num < hi;
    }
    AgreesIntro(t, num, den * d, 2, w);
  }

  /** The rounding is even exactly where twice the divisor divides, and is then the exact quotient. */
  lemma HalvesEven(s: nat, d: nat)
    requires d > 0
    ensures s % (2 * d) == 0 ==> s / d % 2 == 0 && s % d == 0 && RoundOdd(s, d) == s / d
    ensures s % (2 * d) != 0 ==> RoundOdd(s, d) == s / d / 2 * 2 + 1
  {
    DivDiv(s, d, 2);
    assert d * 2 == 2 * d;
    DivModFacts(s, d);
    if s / d % 2 == 1 { assert s / d % 2 * d == d; } else { assert s / d % 2 * d == 0; }
  }

  lemma HalvedBelow(s: nat, d: nat, h: nat)
    requires d >= 2 && h % 2 == 0 && s < 2 * h
    ensures RoundOdd(s, d) < h
  {
    MulMono(2, d, h);
    DivBelow(s, d, h);
  }

  lemma RoundOddRange(n: nat, d: nat, h: nat)
    requires d > 0 && n < 2 * (h * d)
    ensures RoundOdd(n, d) < 2 * h
    ensures h * d <= n ==> h <= RoundOdd(n, d)
  {
    DivBounds(n, d);
    var q := n / d;
    MulAssoc(2, h, d);
    MulStrict(h, q + 1, d);
    MulStrict(q, 2 * h, d);
  }

  lemma HalvedRange(t: nat, h: nat)
    requires 2 * h <= t < 4 * h
    ensures h <= RoundOdd(t, 2) < 2 * h
  {
  }

  /** An even number plus a sticky-shifted one is the exact sum, rounded to odd once. */
  lemma RoundOddPlus(n: nat, m: nat, d: nat)
    requires d > 0 && n % 2 == 0
    ensures n + RoundOdd(m, d) == RoundOdd(n * d + m, d)
  {
    DivModFacts(m, d);
    assert n * d + m == (n + m / d) * d + m % d;
    DivModUnique(n * d + m, d, n + m / d, m % d);
  }

  /** And so is an even number less one. */
  lemma RoundOddMinus(n: nat, m: nat, d: nat)
    requires d > 0 && n % 2 == 0 && RoundOdd(m, d) <= n
    ensures m <= n * d
    ensures n - RoundOdd(m, d) == RoundOdd(n * d - m, d)
  {
    hide RoundOdd;
    RoundOddParts(m, d);
    DivModFacts(m, d);
    DivBounds(m, d);
    var q, r := m / d, m % d;
    LessQuotient(n, m, d, q, r);
    RoundedFrom(n * d - m, d, n, q, r);
  }

  /** Whichever neighbour of the number's quotient was odd, the difference has it as the odd one too. */
  lemma RoundedFrom(x: nat, d: nat, n: nat, q: nat, r: nat)
    requires d > 0 && n % 2 == 0 && r < d
    requires x / d == (if r == 0 then n - q else n - q - 1) && x % d == (if r == 0 then 0 else d - r)
    ensures RoundOdd(x, d) == n - OddOf(q, r != 0)
  {
    hide RoundOdd;
    RoundOddParts(x, d);
  }

  lemma RoundOddParts(m: nat, d: nat)
    requires d > 0
    ensures RoundOdd(m, d) == OddOf(m / d, m % d != 0)
  {
  }

  // A quotient as it is, or the odd one of it and the next.
  function OddOf(q: int, remains: bool): int { if remains && q % 2 == 0 then q + 1 else q }

  /** A multiple less a number, by the number's quotient and remainder. */
  lemma LessQuotient(n: nat, m: nat, d: nat, q: nat, r: nat)
    requires d > 0 && m == q * d + r && r < d && (if r == 0 then q <= n else q + 1 <= n)
    ensures m <= n * d
    ensures (n * d - m) / d == (if r == 0 then n - q else n - q - 1)
    ensures (n * d - m) % d == (if r == 0 then 0 else d - r)
  {
    var u := if r == 0 then n - q else n - q - 1;
    Distribute(n, q, d);
    Distribute(n - q, 1, d);
    MulMono(0, u, d);
    DivModUnique(n * d - m, d, u, if r == 0 then 0 else d - r);
  }

  /** A quotient rounded to odd, shifted down by one more place or not. */
  lemma RoundedOrHalved(x: nat, d: nat, t: nat, s: nat, c: nat)
    requires d > 0 && t == RoundOdd(x, d)
    requires (c == 1 && s == t) || (c == 2 && s == RoundOdd(t, 2))
    ensures d * c > 0 && Agrees(s, x, d * c, 4)
  {
    hide Agrees, RoundOdd;
    if c == 2 { RoundOddTwice(x, d, 2); }
    assert s == RoundOdd(x, d * c);
    RoundOddAgrees(x, d * c);
    AgreesCoarser(s, x, d * c, 2, 2);
  }
}
