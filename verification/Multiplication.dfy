/** Why the significands that a multiplication and a division put together stand where the exact product and the
  * exact quotient stand.
  */
module Multiplication {
  import opened Powers
  import opened Sticky
  import opened Rounding
  import opened Packing

  /** `v` units is `a·2^(e-1)`, at exponents on both sides of the bottom of the range. */
  ghost predicate Scaled(v: nat, a: nat, e: int) {
    Shl(v, Below(e)) == Shl(a, Above(e))
  }

  lemma ScaledTurns(v: nat, a: nat, e: int)
    requires Scaled(v, a, e)
    ensures Scaled(v, 2 * a, e - 1)
  {
    if e > 1 {
      ShlOnce(a);
      ShlTwice(a, 1, e - 2);
    } else {
      ShlOnce(a);
      ShlNone(a);
      ShlNone(2 * a);
      ShlTwice(v, Below(e), 1);
      ShlOnce(Shl(v, Below(e)));
    }
  }

  lemma ShlOnce(a: nat)
    ensures Shl(a, 1) == 2 * a
  {
    assert Pow2(1) == 2;
  }

  lemma ShlNone(a: nat)
    ensures Shl(a, 0) == a
  {
  }

  lemma ShlEight(a: nat, k: nat)
    ensures 8 * Shl(a, k) == Shl(a, k + 3)
  {
    assert Pow2(3) == 8;
    ShlTwice(a, k, 3);
  }

  /** A product of significands, `moved` places down, packs to the product of the values. */
  lemma ProductQuotient(f: Layout, v: nat, a: nat, ea: int, w: nat, b: nat, eb: int, moved: nat)
    requires Scaled(v, a, ea) && Scaled(w, b, eb)
    ensures var e := ea + eb - f.Bias() + moved;
      Shl(a * b, Above(e)) * f.One() == v * w * Shl(8 * Pow2(f.fraction - EXTRA + moved), Below(e))
  {
    LayoutFacts(f);
    var e := ea + eb - f.Bias() + moved;
    var ones, down := f.Bias() + f.fraction - 1, f.fraction + moved;
    ProductEqual(v, a, ea, w, b, eb, Above(e) + ones, down + Below(e));
    ProductLeft(a * b, Above(e), ones);
    ProductRight(v * w, down, Below(e));
  }

  lemma ProductLeft(ab: nat, i: nat, j: nat)
    ensures Shl(ab, i) * Pow2(j) == Shl(ab, i + j)
  {
    ShlTwice(ab, i, j);
  }

  lemma ProductRight(vw: nat, i: nat, j: nat)
    requires i >= 3
    ensures vw * Shl(8 * Pow2(i - 3), j) == Shl(vw, i + j)
  {
    assert Pow2(3) == 8;
    Pow2Add(3, i - 3);
    Pow2Add(i, j);
  }

  lemma ProductEqual(v: nat, a: nat, ea: int, w: nat, b: nat, eb: int, i: nat, j: nat)
    requires Scaled(v, a, ea) && Scaled(w, b, eb)
    requires Above(ea) + Above(eb) + j == i + (Below(ea) + Below(eb))
    ensures Shl(a * b, i) == Shl(v * w, j)
  {
    hide Shl, Above, Below;
    var k := Below(ea) + Below(eb);
    ShlProduct(v, Below(ea), w, Below(eb));
    ShlProduct(a, Above(ea), b, Above(eb));
    ShlTwice(v * w, j, k);
    ShlTwice(v * w, k, j);
    ShlTwice(a * b, Above(ea) + Above(eb), j);
    ShlTwice(a * b, i, k);
    ShlCancels(Shl(a * b, i), Shl(v * w, j), k);
  }

  /** And a quotient of significands to the quotient of the values. */
  lemma DivisionQuotient(f: Layout, v: nat, a: nat, ea: int, w: nat, b: nat, eb: int, moved: nat)
    requires Scaled(v, a, ea) && Scaled(w, b, eb)
    ensures var e := ea - eb + f.Bias() - 1 + moved;
      Shl(Shl(a, Leading(f) + 1), Above(e)) * w == v * f.One() * Shl(8 * Shl(b, moved), Below(e))
  {
    LayoutFacts(f);
    var e := ea - eb + f.Bias() - 1 + moved;
    var up, ones := Leading(f) + 1, f.Bias() + f.fraction - 1;
    DivisionEqual(v, a, ea, w, b, eb, up + Above(e), ones + (moved + 3 + Below(e)));
    DivisionLeft(a, w, up, Above(e));
    DivisionRight(v, b, ones, moved, Below(e));
  }

  lemma DivisionEqual(v: nat, a: nat, ea: int, w: nat, b: nat, eb: int, i: nat, j: nat)
    requires Scaled(v, a, ea) && Scaled(w, b, eb)
    requires Above(eb) + (i + Below(ea)) == Above(ea) + (j + Below(eb))
    ensures Shl(a * w, i) == Shl(v * b, j)
  {
    ShlNone(a);
    ShlNone(b);
    hide Shl, Above, Below;
    var k := Below(ea) + Below(eb);
    ShlProduct(a, 0, w, Below(eb));
    ShlProduct(a, 0, b, Above(eb));
    ShlProduct(v, Below(ea), b, 0);
    ShlProduct(a, Above(ea), b, 0);
    ShlTwice(a * w, i, k);
    ShlTwice(a * w, Below(eb), i + Below(ea));
    ShlTwice(a * b, Above(eb), i + Below(ea));
    ShlTwice(v * b, j, k);
    ShlTwice(v * b, Below(ea), j + Below(eb));
    ShlTwice(a * b, Above(ea), j + Below(eb));
    ShlCancels(Shl(a * w, i), Shl(v * b, j), k);
  }

  lemma DivisionLeft(a: nat, w: nat, i: nat, j: nat)
    ensures Shl(Shl(a, i), j) * w == Shl(a * w, i + j)
  {
    ShlNone(w);
    hide Shl;
    ShlTwice(a, i, j);
    ShlProduct(a, i + j, w, 0);
  }

  lemma DivisionRight(v: nat, b: nat, i: nat, j: nat, k: nat)
    ensures v * Pow2(i) * Shl(8 * Shl(b, j), k) == Shl(v * b, i + (j + 3 + k))
  {
    assert Shl(v, i) == v * Pow2(i);
    hide Shl;
    ShlEight(b, j);
    ShlTwice(b, j + 3, k);
    ShlProduct(v, i, b, j + 3 + k);
  }

  /** Two significands with their leading ones up. */
  ghost predicate Normal(f: Layout, a: nat) { f.Implicit() <= a < 2 * f.Implicit() }

  /** The product cut to the bits that are wanted: `s` after the shift by FRACTION - EXTRA. */
  lemma ProductRange(f: Layout, a: nat, b: nat)
    requires Normal(f, a) && Normal(f, b)
    ensures a * b < Pow2(2 * f.fraction + 2)
    ensures Pow2(Leading(f)) <= RoundOdd(a * b, Pow2(f.fraction - EXTRA)) < 4 * Pow2(Leading(f))
  {
    var h, d := f.Implicit(), Pow2(f.fraction - EXTRA);
    LeadingFacts(f);
    assert Pow2(3) == 8;
    Pow2Add(3, f.fraction - EXTRA);
    assert h == 8 * d;
    Pow2Add(f.fraction + 1, f.fraction + 1);
    assert Pow2(2 * f.fraction + 2) == 2 * h * (2 * h);
    hide Pow2, RoundOdd;
    ProductOfNormals(a, b, h);
    ProductBounds(a * b, h, d);
  }

  lemma ProductOfNormals(a: nat, b: nat, h: nat)
    requires h <= a < 2 * h && h <= b < 2 * h
    ensures h * h <= a * b <= (2 * h - 1) * (2 * h - 1)
    ensures (2 * h - 1) * (2 * h - 1) < 2 * h * (2 * h)
    ensures (2 * h - 1) * (2 * h - 1) == 4 * (h * h) - 4 * h + 1
  {
    MulMono(h, a, b);
    MulMono(h, b, h);
    MulMono(a, 2 * h - 1, b);
    MulMono(b, 2 * h - 1, 2 * h - 1);
  }

  lemma ProductBounds(product: nat, h: nat, d: nat)
    requires d > 0 && h == 8 * d
    requires h * h <= product <= 4 * (h * h) - 4 * h + 1
    ensures 8 * h <= RoundOdd(product, d) < 32 * h
  {
    MulAssoc(h, 8, d);
    DivBounds(product, d);
    QuotientBounds(product, h, d, product / d, h * d);
  }

  lemma QuotientBounds(product: nat, h: nat, d: nat, q: nat, area: nat)
    requires 0 < d && h == 8 * d && area == h * d
    requires 8 * area <= product <= 32 * area - 4 * h + 1
    requires q * d <= product < (q + 1) * d
    ensures 8 * h <= q < 32 * h - 1
  {
    Distribute(32 * h, 1, d);
    MulAssoc(32, h, d);
    MulAssoc(8, h, d);
    MulStrict(q, 32 * h - 1, d);
    MulStrict(8 * h, q + 1, d);
  }

  lemma PowerMoved(k: nat, moved: nat)
    ensures Shl(Pow2(k), moved) == Pow2(k + moved)
  {
    Pow2Add(k, moved);
  }

  /** What a product is packed from. */
  lemma ProductRounds(f: Layout, sign: nat, v: nat, a: nat, ea: int, w: nat, b: nat, eb: int, e: int, s: nat)
    requires sign == 0 || sign == f.SignBit()
    requires Scaled(v, a, ea) && Scaled(w, b, eb) && Normal(f, a) && Normal(f, b)
    requires var t := RoundOdd(a * b, Pow2(f.fraction - EXTRA));
      var base := ea + eb - f.Bias();
      if t < 2 * Pow2(Leading(f)) then s == t && e == base else s == RoundOdd(t, 2) && e == base + 1
    ensures Packable(f, e, s) && RoundAndPack(f, sign, e, s) >= sign
    ensures Nearest(f, v * w, f.One(), RoundAndPack(f, sign, e, s) - sign)
  {
    hide Value, Nearest, RoundAndPack, Agrees, RoundOdd, Scaled, Pow2, Shl;
    var d := Pow2(f.fraction - EXTRA);
    ProductRange(f, a, b);
    var moved := if RoundOdd(a * b, d) < 2 * Pow2(Leading(f)) then 0 else 1;
    QuotientSticky(f, a * b, d, s, moved);
    PowerMoved(f.fraction - EXTRA, moved);
    ProductQuotient(f, v, a, ea, w, b, eb, moved);
    PackRoundsTo(f, sign, e, s, a * b, Pow2(f.fraction - EXTRA + moved), v * w, f.One());
  }

  /** The state of the division loop after `turns` turns: the quotient so far, and what is carried into the
    * next turn, which is twice the remainder and so is below twice the divisor rather than below it.
    */
  ghost predicate Dividing(a: nat, b: nat, turns: nat, quotient: nat, carried: nat) {
    && carried < 2 * b
    && Shl(a, turns) == 2 * (quotient * b) + carried
    && (turns > 0 ==> carried % 2 == 0)
  }

  lemma DividingTurns(a: nat, b: nat, turns: nat, quotient: nat, carried: nat)
    requires Dividing(a, b, turns, quotient, carried)
    ensures var fits := carried >= b;
      Dividing(a, b, turns + 1, 2 * quotient + if fits then 1 else 0, 2 * if fits then carried - b else carried)
  {
    ShlTwice(a, turns, 1);
    ShlOnce(Shl(a, turns));
    hide Shl;
    MulAssoc(2, quotient, b);
    Distribute(2 * quotient, 1, b);
  }

  /** A quotient so far has one bit a turn, and its leading one is in the first bit or in the second. */
  lemma QuotientRange(f: Layout, a: nat, b: nat, turns: nat, quotient: nat, carried: nat)
    requires Normal(f, a) && Normal(f, b) && Dividing(a, b, turns, quotient, carried)
    ensures quotient < Pow2(turns)
    ensures turns >= 2 ==> quotient >= Pow2(turns - 2)
  {
    assert turns >= 2 ==> Pow2(turns) == 4 * Pow2(turns - 2);
    hide Pow2;
    QuotientBelow(a, b, quotient, Pow2(turns));
    if turns >= 2 { QuotientAbove(a, b, quotient, carried, Pow2(turns - 2)); }
  }

  lemma QuotientBelow(a: nat, b: nat, quotient: nat, p: nat)
    requires p > 0 && 0 < b && a < 2 * b && 2 * (quotient * b) <= a * p
    ensures quotient < p
  {
    MulStrict(a, 2 * b, p);
    MulStrict(quotient, p, b);
    assert 2 * b * p == 2 * (p * b);
  }

  lemma QuotientAbove(a: nat, b: nat, quotient: nat, carried: nat, q: nat)
    requires 0 < b <= 2 * a && carried < 2 * b && a * (4 * q) == 2 * (quotient * b) + carried
    ensures quotient >= q
  {
    MulMono(b, 2 * a, q);
    assert a * (4 * q) == 2 * (2 * a * q);
    Distribute(quotient, 1, b);
    MulStrict(q, quotient + 1, b);
  }

  /** After the last turn the quotient and whether anything is left are the exact quotient rounded to odd. */
  lemma Divided(a: nat, b: nat, turns: nat, quotient: nat, carried: nat)
    requires b > 0 && Dividing(a, b, turns + 1, quotient, carried)
    ensures Shl(a, turns) / b == quotient
    ensures Shl(a, turns) % b != 0 <==> carried != 0
  {
    ShlTwice(a, turns, 1);
    ShlOnce(Shl(a, turns));
    hide Shl;
    DivModUnique(Shl(a, turns), b, quotient, carried / 2);
  }

  /** What a quotient is packed from. */
  lemma QuotientRounds(f: Layout, sign: nat, v: nat, a: nat, ea: int, w: nat, b: nat, eb: int, e: int, s: nat)
    requires sign == 0 || sign == f.SignBit()
    requires w > 0 && b > 0 && Scaled(v, a, ea) && Scaled(w, b, eb)
    requires var t := RoundOdd(Shl(a, Leading(f) + 1), b);
      var base := ea - eb + f.Bias() - 1;
      && Pow2(Leading(f)) <= t < 4 * Pow2(Leading(f))
      && if t < 2 * Pow2(Leading(f)) then s == t && e == base else s == RoundOdd(t, 2) && e == base + 1
    ensures Packable(f, e, s) && RoundAndPack(f, sign, e, s) >= sign
    ensures Nearest(f, v * f.One(), w, RoundAndPack(f, sign, e, s) - sign)
  {
    hide Value, Nearest, RoundAndPack, Agrees, RoundOdd, Scaled, Shl;
    var moved := if RoundOdd(Shl(a, Leading(f) + 1), b) < 2 * Pow2(Leading(f)) then 0 else 1;
    QuotientSticky(f, Shl(a, Leading(f) + 1), b, s, moved);
    DivisionQuotient(f, v, a, ea, w, b, eb, moved);
    PackRoundsTo(f, sign, e, s, Shl(a, Leading(f) + 1), Shl(b, moved), v * f.One(), w);
  }

  lemma QuotientSticky(f: Layout, num: nat, b: nat, s: nat, moved: nat)
    requires b > 0 && moved <= 1
    requires var t := RoundOdd(num, b);
      && Pow2(Leading(f)) <= t < 4 * Pow2(Leading(f))
      && if moved == 0 then t < 2 * Pow2(Leading(f)) && s == t else 2 * Pow2(Leading(f)) <= t && s == RoundOdd(t, 2)
    ensures Pow2(Leading(f)) <= s < 2 * Pow2(Leading(f))
    ensures Shl(b, moved) > 0 && Agrees(s, num, Shl(b, moved), 4)
  {
    assert Shl(b, moved) == b * (moved + 1) by { assert Pow2(moved) == moved + 1; }
    LeadingFacts(f);
    hide Pow2, Agrees, RoundOdd, Shl;
    var t := RoundOdd(num, b);
    if moved == 1 { HalvedRange(t, Pow2(Leading(f))); }
    RoundedOrHalved(num, b, t, s, moved + 1);
  }
}
