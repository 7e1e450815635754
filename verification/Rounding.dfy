/** Binary interchange formats and rounding to the nearest value of one, ties to even.
  *
  * A magnitude pattern, the pattern with its sign bit off, names a value that is a whole number of
  * units, the unit being the smallest subnormal. So every finite value is an integer here, and an exact
  * result that is not one is a quotient of two integers, `num / den` units.
  */
module Rounding {
  import opened Powers

  /** `fraction` bits of significand written down, `width` bits of exponent, and the `word` of machine
    * bits that the significands of the arithmetic are held in.
    */
  datatype Format = Format(fraction: nat, width: nat, word: nat) {
    predicate Valid() { 4 <= fraction && 2 <= width && fraction + 6 <= word }

    // FRACTION bits up: the leading one that a normal significand has and the format does not store.
    function Implicit(): (r: nat)
      ensures r > 0
    {
      Pow2(fraction)
    }

    function Top(): nat { Pow2(width) - 1 }

    function Bias(): nat
      requires Valid()
    {
      Pow2(width - 1) - 1
    }

    // The magnitude pattern of an infinity.
    function Infinity(): nat { Top() * Implicit() }

    function SignBit(): (r: nat)
      ensures r > 0
    {
      Pow2(width + fraction)
    }

    // How many units make the number one.
    ghost function One(): (r: nat)
      requires Valid()
      ensures r > 0
    {
      Pow2(Bias() + fraction - 1)
    }
  }

  type Layout = f: Format | f.Valid() witness Format(23, 8, 64)

  const Single: Layout := Format(23, 8, 64)
  const Double: Layout := Format(52, 11, 64)
  const Quad: Layout := Format(112, 15, 128)

  lemma LayoutFacts(f: Layout)
    ensures f.Top() == 2 * f.Bias() + 1 && f.Bias() >= 1 && f.Top() >= 3
    ensures f.SignBit() == (f.Top() + 1) * f.Implicit() == f.Infinity() + f.Implicit()
    ensures f.Implicit() >= 16 && f.Implicit() % 2 == 0 && f.Infinity() % 2 == 0
  {
    SixteenOrMore(f.fraction);
    EvenMultiple(f.Top(), f.Implicit());
    Pow2Mono(1, f.width - 1);
    assert Pow2(1) == 2;
    Pow2Add(f.width, f.fraction);
    Distribute(f.Top(), 1, f.Implicit());
  }

  lemma SixteenOrMore(n: nat)
    requires n >= 4
    ensures Pow2(n) >= 16 && Pow2(n) % 2 == 0
  {
    assert Pow2(4) == 16;
    Pow2Mono(4, n);
  }

  /** The value a magnitude pattern names, in units (sections 3.3 and 3.4 of IEEE 754-2019). At and above
    * `Infinity` it names the values the format would go on with were its exponents not to end.
    */
  ghost function Value(f: Layout, m: nat): nat {
    DivBounds(m, f.Implicit());
    var e, fraction := m / f.Implicit(), m % f.Implicit();
    if e == 0 then fraction else (f.Implicit() + fraction) * Pow2(e - 1)
  }

  /** The distance to the next value up. */
  ghost function Gap(f: Layout, m: nat): (r: nat)
    ensures r > 0
  {
    var e := m / f.Implicit();
    if e <= 1 then 1 else Pow2(e - 1)
  }

  ghost function Distance(f: Layout, num: nat, den: nat, k: nat): nat {
    var v := Value(f, k) * den;
    if v >= num then v - num else num - v
  }

  /** `m` is what `num / den` units rounds to: no magnitude of the format is nearer, and where another one
    * is as near, `m` is the one that is even. An infinity takes part as the first power of two past the
    * range, which puts the overflow threshold where section 4.3.1 of IEEE 754-2019 has it, as
    * `OverflowThreshold` shows.
    */
  ghost predicate Nearest(f: Layout, num: nat, den: nat, m: nat) {
    && m <= f.Infinity()
    && forall k: nat | k <= f.Infinity() && k != m ::
         && Distance(f, num, den, m) <= Distance(f, num, den, k)
         && (Distance(f, num, den, m) == Distance(f, num, den, k) ==> m % 2 == 0)
  }

  /** The value of a pattern given by its fields. */
  lemma ValueOf(f: Layout, e: nat, fraction: nat)
    requires fraction < f.Implicit()
    ensures Value(f, e * f.Implicit() + fraction) == if e == 0 then fraction
          else (f.Implicit() + fraction) * Pow2(e - 1)
    ensures Gap(f, e * f.Implicit() + fraction) == if e <= 1 then 1 else Pow2(e - 1)
  {
    DivModUnique(e * f.Implicit() + fraction, f.Implicit(), e, fraction);
  }

  /** One more on the packed pattern is one more gap on the value, whatever the increment carries into. */
  lemma ValueNext(f: Layout, m: nat)
    ensures Value(f, m + 1) == Value(f, m) + Gap(f, m)
  {
    DivBounds(m, f.Implicit());
    DivModFacts(m, f.Implicit());
    FieldsNext(f, m / f.Implicit(), m % f.Implicit());
  }

  lemma FieldsNext(f: Layout, e: nat, fraction: nat)
    requires fraction < f.Implicit()
    ensures var m := e * f.Implicit() + fraction; Value(f, m + 1) == Value(f, m) + Gap(f, m)
  {
    var h := f.Implicit();
    var m := e * h + fraction;
    ValueOf(f, e, fraction);
    if fraction + 1 < h {
      ValueOf(f, e, fraction + 1);
      assert m + 1 == e * h + (fraction + 1);
      if e > 0 { Distribute(h + fraction, 1, Pow2(e - 1)); }
    } else {
      ValueOf(f, e + 1, 0);
      assert m + 1 == (e + 1) * h + 0 by { Distribute(e, 1, h); }
      if e > 0 { CarryOut(h, Pow2(e - 1)); }
    }
  }

  lemma CarryOut(h: nat, p: nat)
    ensures (h + (h - 1)) * p + p == (h + 0) * (2 * p)
  {
  }

  lemma {:induction false} ValueMono(f: Layout, i: nat, j: nat)
    ensures i < j ==> Value(f, i) < Value(f, j)
    ensures i <= j <==> Value(f, i) <= Value(f, j)
    decreases i + j
  {
    if i < j {
      ValueMono(f, i, j - 1);
      ValueNext(f, j - 1);
    } else if j < i {
      ValueMono(f, i - 1, j);
      ValueNext(f, i - 1);
    }
  }

  /** The choice between the two neighbours of an exact value, by its distance to each. */
  ghost predicate Chosen(f: Layout, num: nat, den: nat, base: nat, m: nat) {
    var below, above := Value(f, base) * den, Value(f, base + 1) * den;
    if 2 * num < below + above then m == base
    else if 2 * num > below + above then m == base + 1
    else (m == base || m == base + 1) && m % 2 == 0
  }

  /** The nearer of the two neighbours is nearer than everything else. */
  lemma ChosenIsNearest(f: Layout, num: nat, den: nat, base: nat, m: nat)
    requires den > 0 && base < f.Infinity()
    requires Value(f, base) * den <= num <= Value(f, base + 1) * den
    requires Chosen(f, num, den, base, m)
    ensures Nearest(f, num, den, m)
  {
    hide Value;
    var lo, hi := Value(f, base) * den, Value(f, base + 1) * den;
    forall k: nat | k <= f.Infinity() && k != m
      ensures Distance(f, num, den, m) <= Distance(f, num, den, k)
      ensures Distance(f, num, den, m) == Distance(f, num, den, k) ==> m % 2 == 0
    {
      ValueMono(f, k, base);
      ValueMono(f, base, k);
      ValueMono(f, base + 1, k);
      ValueMono(f, base, base + 1);
      MulStrict(Value(f, k), Value(f, base), den);
      MulStrict(Value(f, base + 1), Value(f, k), den);
      MulStrict(Value(f, base), Value(f, base + 1), den);
    }
  }

  lemma InfinityIsNearest(f: Layout, num: nat, den: nat)
    requires den > 0 && num >= Value(f, f.Infinity()) * den
    ensures Nearest(f, num, den, f.Infinity())
  {
    forall k: nat | k <= f.Infinity() && k != f.Infinity()
      ensures Distance(f, num, den, f.Infinity()) < Distance(f, num, den, k)
    {
      ValueMono(f, k, f.Infinity());
      MulStrict(Value(f, k), Value(f, f.Infinity()), den);
    }
  }

  /** Rounding has one answer. */
  lemma NearestUnique(f: Layout, num: nat, den: nat, m: nat, n: nat)
    requires den > 0 && Nearest(f, num, den, m) && Nearest(f, num, den, n)
    ensures m == n
  {
    hide Value;
    if m != n {
      var low, high := if m < n then m else n, if m < n then n else m;
      assert low % 2 == 0 && high % 2 == 0;
      var k := low + 1;
      assert Distance(f, num, den, low) == Distance(f, num, den, high) <= Distance(f, num, den, k);
      ValueMono(f, low, k);
      ValueMono(f, k, high);
      MulStrict(Value(f, low), Value(f, k), den);
      MulStrict(Value(f, k), Value(f, high), den);
      assert false;
    }
  }

  /** A value of the format rounds to itself. */
  lemma NearestExact(f: Layout, den: nat, m: nat)
    requires den > 0 && m <= f.Infinity()
    ensures Nearest(f, Value(f, m) * den, den, m)
  {
    forall k: nat | k <= f.Infinity() && k != m
      ensures Distance(f, Value(f, m) * den, den, k) > 0
    {
      ValueMono(f, k, m);
      ValueMono(f, m, k);
      MulStrict(Value(f, k), Value(f, m), den);
      MulStrict(Value(f, m), Value(f, k), den);
    }
  }

  lemma DistanceScales(f: Layout, num: nat, den: nat, c: nat, k: nat)
    ensures Distance(f, num * c, den * c, k) == Distance(f, num, den, k) * c
  {
    var v := Value(f, k);
    assert v * (den * c) == v * den * c;
    if v * den >= num { MulMono(num, v * den, c); } else { MulMono(v * den, num, c); }
  }

  lemma NearestScaled(f: Layout, num: nat, den: nat, c: nat, m: nat)
    requires den > 0 && c > 0
    ensures Nearest(f, num, den, m) <==> Nearest(f, num * c, den * c, m)
  {
    forall k: nat
      ensures Distance(f, num * c, den * c, m) <= Distance(f, num * c, den * c, k)
              <==> Distance(f, num, den, m) <= Distance(f, num, den, k)
      ensures Distance(f, num * c, den * c, m) == Distance(f, num * c, den * c, k)
              <==> Distance(f, num, den, m) == Distance(f, num, den, k)
    {
      DistanceScales(f, num, den, c, m);
      DistanceScales(f, num, den, c, k);
      MulStrict(Distance(f, num, den, m), Distance(f, num, den, k), c);
      MulStrict(Distance(f, num, den, k), Distance(f, num, den, m), c);
    }
  }

  /** Rounding depends on the exact value and not on the quotient it is written as. */
  lemma NearestSameQuotient(f: Layout, num: nat, den: nat, num': nat, den': nat, m: nat)
    requires den > 0 && den' > 0 && num * den' == num' * den
    ensures Nearest(f, num, den, m) <==> Nearest(f, num', den', m)
  {
    NearestScaled(f, num, den, den', m);
    NearestScaled(f, num', den', den, m);
    assert den * den' == den' * den;
  }

  /** An exact value overflows exactly from half a gap past the largest finite one. */
  lemma OverflowThreshold(f: Layout, num: nat, den: nat, m: nat)
    requires den > 0 && Nearest(f, num, den, m)
    ensures m == f.Infinity()
            <==> 2 * num >= (2 * Value(f, f.Infinity() - 1) + Gap(f, f.Infinity() - 1)) * den
  {
    hide Value, Gap;
    LayoutFacts(f);
    var last := f.Infinity() - 1;
    ValueNext(f, last);
    var a, b := Value(f, last), Value(f, last + 1);
    Distribute(a, b, den);
    MulStrict(a, b, den);
    if num >= b * den {
      InfinityIsNearest(f, num, den);
      NearestUnique(f, num, den, m, last + 1);
    } else if num >= a * den {
      var n := if 2 * num < a * den + b * den then last else last + 1;
      ChosenIsNearest(f, num, den, last, n);
      NearestUnique(f, num, den, m, n);
    } else {
      assert Distance(f, num, den, last) < Distance(f, num, den, last + 1);
    }
  }

  /** Rounding keeps the order of exact values. */
  lemma NearestMonotone(f: Layout, num: nat, num': nat, den: nat, m: nat, n: nat)
    requires den > 0 && num <= num'
    requires Nearest(f, num, den, m) && Nearest(f, num', den, n)
    ensures m <= n
  {
    if n < m {
      ValueMono(f, n, m);
      MulStrict(Value(f, n), Value(f, m), den);
      var a, b := Value(f, n) * den, Value(f, m) * den;
      assert Distance(f, num, den, m) <= Distance(f, num, den, n);
      assert Distance(f, num', den, n) <= Distance(f, num', den, m);
      assert 2 * num == a + b == 2 * num';
      NearestUnique(f, num, den, m, n);
    }
  }
}
