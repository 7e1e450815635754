/** Why three bits under the significand are enough for an addition: the smaller operand is cut to them before
  * it is added or subtracted, and what comes out still stands where the exact result stands.
  *
  * `a` and `b` are the significands of the larger and the smaller operand and `h` and `l` their exponents, so
  * that the operands are `a·2^(h-1)` and `b·2^(l-1)` units.
  */
module Addition {
  import opened Powers
  import opened Sticky
  import opened Rounding
  import opened Packing

  /** The larger operand's significand at `h`, the smaller one's at `l`, and the larger one really larger. */
  ghost predicate Operands(f: Layout, a: nat, b: nat, h: int, l: int) {
    && a < 2 * f.Implicit() && b < 2 * f.Implicit() && 0 < a && 0 < b
    && 1 <= l <= h
    && (h > 1 ==> a >= f.Implicit())
    && (h == l ==> a >= b)
  }

  // The smaller significand lined up under the larger one.
  ghost function Aligned(b: nat, h: int, l: int): nat
    requires l <= h
  {
    RoundOdd(8 * b, Pow2(h - l))
  }

  lemma AlignedBelow(f: Layout, a: nat, b: nat, h: int, l: int)
    requires Operands(f, a, b, h, l)
    ensures Aligned(b, h, l) <= 8 * a && Aligned(b, h, l) < 16 * f.Implicit()
    ensures 8 * b % Pow2(h - l) != 0 ==> h - l >= 4 && Aligned(b, h, l) < 2 * f.Implicit()
  {
    LayoutFacts(f);
    var d := Pow2(h - l);
    if h == l {
      assert d == 1;
    } else {
      Pow2Mono(1, h - l);
      assert Pow2(1) == 2;
      HalvedBelow(8 * b, d, 8 * f.Implicit());
      if h - l <= 3 { EighthsExact(b, h - l); } else { SixteenthBelow(b, h - l, f.Implicit()); }
    }
  }

  lemma EighthsExact(b: nat, k: nat)
    requires k <= 3
    ensures 8 * b % Pow2(k) == 0
  {
    Pow2Add(3 - k, k);
    assert Pow2(3) == 8;
    MulAssoc(b, Pow2(3 - k), Pow2(k));
    DivModUnique(8 * b, Pow2(k), b * Pow2(3 - k), 0);
  }

  lemma SixteenthBelow(b: nat, k: nat, h: nat)
    requires k >= 4 && b < 2 * h && h % 2 == 0
    ensures RoundOdd(8 * b, Pow2(k)) < 2 * h
  {
    Pow2Mono(4, k);
    assert Pow2(4) == 16;
    MulMono(16, Pow2(k), h);
    DivBelow(8 * b, Pow2(k), h);
  }

  /** The exact sum, at the scale of the larger operand's rounding bits. */
  ghost function Sum(a: nat, b: nat, h: int, l: int): nat
    requires l <= h
  {
    MulMono(0, 8 * a, Pow2(h - l));
    8 * a * Pow2(h - l) + 8 * b
  }

  /** Same signs: the sum of the cut operands is the exact sum rounded to odd. */
  lemma SumAgrees(f: Layout, a: nat, b: nat, h: int, l: int)
    requires Operands(f, a, b, h, l)
    ensures var t := 8 * a + Aligned(b, h, l);
      && t == RoundOdd(Sum(a, b, h, l), Pow2(h - l))
      && t < 32 * f.Implicit()
      && (h > 1 ==> t >= 8 * f.Implicit())
  {
    AlignedBelow(f, a, b, h, l);
    RoundOddPlus(8 * a, 8 * b, Pow2(h - l));
  }

  /** What the sum is packed from, after the shift that makes room for a carry. */
  lemma SumRounds(f: Layout, sign: nat, a: nat, b: nat, h: int, l: int, e: int, s: nat)
    requires sign == 0 || sign == f.SignBit()
    requires Operands(f, a, b, h, l)
    requires var t := 8 * a + Aligned(b, h, l);
      if t < 16 * f.Implicit() then s == t && e == h else s == RoundOdd(t, 2) && e == h + 1
    ensures Packable(f, e, s) && RoundAndPack(f, sign, e, s) >= sign
    ensures Nearest(f, Shl(a, h - 1) + Shl(b, l - 1), 1, RoundAndPack(f, sign, e, s) - sign)
  {
    hide Value, Nearest, RoundAndPack, Agrees, Aligned, Sum, Shl;
    var c := if 8 * a + Aligned(b, h, l) < 16 * f.Implicit() then 1 else 2;
    SumPackable(f, a, b, h, l, e, s, c);
    SumQuotient(a, b, h, l, c);
    PackRoundsTo(f, sign, e, s, Sum(a, b, h, l), Pow2(h - l) * c, Shl(a, h - 1) + Shl(b, l - 1), 1);
  }

  lemma SumPackable(f: Layout, a: nat, b: nat, h: int, l: int, e: int, s: nat, c: nat)
    requires Operands(f, a, b, h, l)
    requires var t := 8 * a + Aligned(b, h, l);
      if t < 16 * f.Implicit() then s == t && c == 1 else s == RoundOdd(t, 2) && c == 2
    requires e == h + c - 1
    ensures Packable(f, e, s)
    ensures Pow2(h - l) * c > 0 && Agrees(s, Sum(a, b, h, l), Pow2(h - l) * c, 4)
  {
    hide Agrees, Aligned, RoundOdd, Sum, Pow2;
    SumAgrees(f, a, b, h, l);
    LeadingFacts(f);
    RoundedOrHalved(Sum(a, b, h, l), Pow2(h - l), 8 * a + Aligned(b, h, l), s, c);
    if c == 2 {
      HalvedRange(8 * a + Aligned(b, h, l), 8 * f.Implicit());
    }
  }

  lemma SumQuotient(a: nat, b: nat, h: int, l: int, c: nat)
    requires 1 <= l <= h && 1 <= c <= 2
    ensures Shl(Sum(a, b, h, l), Above(h + c - 1)) * 1
            == (Shl(a, h - 1) + Shl(b, l - 1)) * Shl(8 * (Pow2(h - l) * c), Below(h + c - 1))
  {
    var d, p := Pow2(h - l), Pow2(l - 1);
    Pow2Add(h - l, l - 1);
    assert Above(h + c - 1) == h + c - 2 && Below(h + c - 1) == 0 && Pow2(0) == 1;
    assert Pow2(h - 1) == d * p && Pow2(h + c - 2) == d * p * c;
    SumTerms(a, b, d, p, c);
  }

  lemma SumTerms(a: nat, b: nat, d: nat, p: nat, c: nat)
    ensures (8 * a * d + 8 * b) * (d * p * c) == (a * (d * p) + b * p) * (8 * (d * c))
  {
    assert (8 * a * d + 8 * b) * (d * p * c) == 8 * (a * d + b) * (d * p * c);
    assert a * (d * p) + b * p == (a * d + b) * p;
    var y := a * d + b;
    assert 8 * y * (d * p * c) == y * p * (8 * (d * c));
  }

  /** Opposite signs: the exact difference, and whether cutting the smaller operand lost any of it. */
  ghost function Difference(a: nat, b: nat, h: int, l: int): int
    requires l <= h
  {
    8 * a * Pow2(h - l) - 8 * b
  }

  lemma DifferenceAgrees(f: Layout, a: nat, b: nat, h: int, l: int)
    requires Operands(f, a, b, h, l)
    ensures Difference(a, b, h, l) >= 0
    ensures 8 * a - Aligned(b, h, l) == RoundOdd(Difference(a, b, h, l), Pow2(h - l))
    ensures 8 * b % Pow2(h - l) == 0 ==> (8 * a - Aligned(b, h, l)) * Pow2(h - l) == Difference(a, b, h, l)
    ensures 8 * b % Pow2(h - l) != 0 ==> 8 * a - Aligned(b, h, l) >= 4 * f.Implicit()
  {
    AlignedBelow(f, a, b, h, l);
    var d := Pow2(h - l);
    RoundOddMinus(8 * a, 8 * b, d);
    DivModFacts(8 * b, d);
    Distribute(8 * a, 8 * b / d, d);
  }

  /** The state of the loop that brings the leading one of a difference back up. Where something was cut off
    * the loop turns at most once, and where it turns more than once the difference is exact.
    */
  ghost predicate Raising(f: Layout, a: nat, b: nat, h: int, l: int, e: int, s: nat)
    requires Operands(f, a, b, h, l)
  {
    var start := 8 * a - Aligned(b, h, l);
    && 1 <= e <= h
    && s == start * Pow2(h - e)
    && 0 < s < 16 * f.Implicit()
    && (8 * b % Pow2(h - l) != 0 ==> h - e <= 1 && start >= 4 * f.Implicit())
  }

  lemma RaisingTurns(f: Layout, a: nat, b: nat, h: int, l: int, e: int, s: nat)
    requires Operands(f, a, b, h, l) && Raising(f, a, b, h, l, e, s)
    requires s < 8 * f.Implicit() && e > 1
    ensures Raising(f, a, b, h, l, e - 1, 2 * s)
  {
    hide Aligned;
    var start := 8 * a - Aligned(b, h, l);
    assert Pow2(h - (e - 1)) == 2 * Pow2(h - e);
    MulAssoc(start, Pow2(h - e), 2);
    if h - e == 1 { assert Pow2(1) == 2; }
  }

  lemma AgreesExact(s: nat, num: int, den: int, g: int)
    requires g > 0 && den > 0 && num == s * den
    ensures Agrees(s, num, den, g)
  {
    DivModFacts(s, g);
    Distribute(s / g, 1, g);
    MulStrict(s / g * g, s, den);
    MulStrict(s, (s / g + 1) * g, den);
  }

  /** A shift up by one place leaves agreement about the multiples of four, and no more. */
  lemma AgreesDoubled(s: nat, num: int, den: int)
    requires den > 0 && Agrees(s, num, den, 2)
    ensures Agrees(2 * s, 2 * num, den, 4)
  {
    var w := s / 2;
    assert 2 * s / 4 == w;
    if s % 2 == 0 {
      MulAssoc(2, s, den);
    } else {
      MulAssoc(2, w * 2, den);
      MulAssoc(2, (w + 1) * 2, den);
    }
  }

  lemma RaisedAgrees(f: Layout, a: nat, b: nat, h: int, l: int, e: int, s: nat)
    requires Operands(f, a, b, h, l) && Raising(f, a, b, h, l, e, s)
    ensures Agrees(s, Difference(a, b, h, l) * Pow2(h - e), Pow2(h - l), 4)
  {
    hide Aligned, Difference, Agrees;
    DifferenceAgrees(f, a, b, h, l);
    var d, k, x := Pow2(h - l), Pow2(h - e), Difference(a, b, h, l);
    var start := 8 * a - Aligned(b, h, l);
    if 8 * b % d == 0 {
      assert s * d == x * k by { MulAssoc(start, k, d); MulAssoc(start, d, k); }
      AgreesExact(s, x * k, d, 4);
    } else {
      RoundOddAgrees(x, d);
      if e == h {
        assert k == 1;
        AgreesCoarser(s, x, d, 2, 2);
      } else {
        assert k == 2;
        AgreesDoubled(start, x, d);
      }
    }
  }

  /** What a difference is packed from once its leading one is up, or its exponent at the bottom. */
  lemma DifferenceRounds(f: Layout, sign: nat, a: nat, b: nat, h: int, l: int, e: int, s: nat)
    requires sign == 0 || sign == f.SignBit()
    requires Operands(f, a, b, h, l) && Raising(f, a, b, h, l, e, s)
    requires s >= 8 * f.Implicit() || e == 1
    ensures Packable(f, e, s) && RoundAndPack(f, sign, e, s) >= sign
    ensures Shl(a, h - 1) > Shl(b, l - 1)
    ensures Nearest(f, Shl(a, h - 1) - Shl(b, l - 1), 1, RoundAndPack(f, sign, e, s) - sign)
  {
    hide Value, Nearest, RoundAndPack, Agrees, Aligned, Difference, Shl;
    LeadingFacts(f);
    RaisedAgrees(f, a, b, h, l, e, s);
    DifferenceAgrees(f, a, b, h, l);
    MulMono(0, Difference(a, b, h, l), Pow2(h - e));
    DifferenceQuotient(a, b, h, l, e);
    DifferencePositive(f, a, b, h, l);
    PackRoundsTo(f, sign, e, s, Difference(a, b, h, l) * Pow2(h - e), Pow2(h - l), Shl(a, h - 1) - Shl(b, l - 1), 1);
  }

  lemma DifferenceQuotient(a: nat, b: nat, h: int, l: int, e: int)
    requires 1 <= l <= h && 1 <= e <= h
    requires Difference(a, b, h, l) >= 0 && Difference(a, b, h, l) * Pow2(h - e) >= 0
    ensures Shl(Difference(a, b, h, l) * Pow2(h - e), Above(e)) * 1
            == (Shl(a, h - 1) - Shl(b, l - 1)) * Shl(8 * Pow2(h - l), Below(e))
  {
    var d, p := Pow2(h - l), Pow2(l - 1);
    Pow2Add(h - l, l - 1);
    Pow2Add(h - e, e - 1);
    assert Above(e) == e - 1 && Below(e) == 0 && Pow2(0) == 1;
    MulAssoc(Difference(a, b, h, l), Pow2(h - e), Pow2(e - 1));
    DifferenceTerms(a, b, d, p);
  }

  lemma DifferenceTerms(a: nat, b: nat, d: nat, p: nat)
    ensures (8 * a * d - 8 * b) * (d * p) == (a * (d * p) - b * p) * (8 * d)
  {
    var y := a * d - b;
    assert a * (d * p) - b * p == y * p by { Distribute(a * d, b, p); MulAssoc(a, d, p); }
    assert 8 * a * d - 8 * b == 8 * y;
    assert 8 * y * (d * p) == y * p * (8 * d);
  }

  /** The difference of the cut operands is zero only where the operands are equal. */
  lemma DifferencePositive(f: Layout, a: nat, b: nat, h: int, l: int)
    requires Operands(f, a, b, h, l)
    ensures 8 * a == Aligned(b, h, l) <==> Shl(a, h - 1) == Shl(b, l - 1)
    ensures Shl(a, h - 1) >= Shl(b, l - 1)
  {
    hide Aligned;
    DifferenceAgrees(f, a, b, h, l);
    LayoutFacts(f);
    var d, p := Pow2(h - l), Pow2(l - 1);
    Pow2Add(h - l, l - 1);
    MulAssoc(a, d, p);
    MulAssoc(8, a, d);
    MulStrict(a * d, b, p);
    MulStrict(b, a * d, p);
    if 8 * b % d == 0 {
      MulStrict(0, 8 * a - Aligned(b, h, l), d);
    } else {
      assert 8 * b != 8 * a * d by { if 8 * b == 8 * a * d { DivModUnique(8 * b, d, 8 * a, 0); } }
    }
  }
}
