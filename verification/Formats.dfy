/** The three interchange formats by their numbers, as float.c, double.c and quad.c write them down: what the rest
  * says of a layout in general is said of these.
  */
module Formats {
  import opened Powers
  import opened Rounding
  import opened Packing
  import opened Ieee

  /** The least value above zero is one unit, the pattern with the exponent of the bias and no fraction is the number
    * one, and an infinity is twice the largest power of two there is.
    */
  lemma Anchors(f: Layout)
    ensures Value(f, 0) == 0 && Value(f, 1) == 1
    ensures Value(f, f.Bias() * f.Implicit()) == f.One() == Pow2(f.Bias() + f.fraction - 1)
    ensures Value(f, f.Infinity()) == 2 * Value(f, f.Infinity() - f.Implicit())
  {
    Pow2First();
    hide Value, Pow2;
    LayoutFacts(f);
    ValueOf(f, 0, 0);
    ValueOf(f, 0, 1);
    ValueOf(f, f.Bias(), 0);
    Pow2Add(f.fraction, f.Bias() - 1);
    ValueOf(f, f.Top(), 0);
    ValueOf(f, f.Top() - 1, 0);
    Distribute(f.Top(), 1, f.Implicit());
    Pow2Next(f.Top() - 2);
    Doubled(f.Implicit(), Pow2(f.Top() - 2));
  }

  lemma Doubled(a: nat, b: nat)
    ensures a * (2 * b) == 2 * (a * b)
  {
  }

  /** How the patterns of a format fall into classes, by the two numbers that part them. */
  ghost predicate PartedBy(f: Layout, sign: nat, infinity: nat) {
    && f.SignBit() == sign && f.Infinity() == infinity
    && forall p: nat ::
         && (IsPattern(f, p) <==> p < 2 * sign)
         && (IsPattern(f, p) ==>
               var m := if p < sign then p else p - sign;
               && Magnitude(f, p) == m
               && (Negative(f, p) <==> p >= sign)
               && (IsNan(f, p) <==> m > infinity)
               && (IsInfinite(f, p) <==> m == infinity)
               && (IsZero(f, p) <==> m == 0))
  }

  lemma Parted(f: Layout)
    ensures PartedBy(f, f.SignBit(), f.Infinity())
  {
    hide Magnitude, ExponentOf, FractionOf, IsNan, IsInfinite, Pow2;
    forall p: nat
      ensures IsInfinite(f, p) <==> Magnitude(f, p) == f.Infinity()
      ensures IsNan(f, p) <==> Magnitude(f, p) > f.Infinity()
      ensures IsPattern(f, p) ==> Magnitude(f, p) == if p < f.SignBit() then p else p - f.SignBit()
    {
      Classes(f, p);
      if IsPattern(f, p) { PatternIsSignAndMagnitude(f, p); }
    }
  }

  lemma FieldPowers()
    ensures Pow2(3) == 8 && Pow2(7) == 128 && Pow2(8) == 0x100 && Pow2(10) == 1024 && Pow2(11) == 2048
    ensures Pow2(14) == 16384 && Pow2(15) == 32768
    ensures Pow2(22) == 0x0040_0000 && Pow2(23) == 0x0080_0000 && Pow2(31) == 0x8000_0000
    ensures Pow2(51) == 0x0008_0000_0000_0000 && Pow2(52) == 0x0010_0000_0000_0000
    ensures Pow2(63) == 0x8000_0000_0000_0000
    ensures Pow2(111) == 0x8000_0000_0000_0000_0000_0000_0000
    ensures Pow2(112) == 0x0001_0000_0000_0000_0000_0000_0000_0000
    ensures Pow2(127) == 0x8000_0000_0000_0000_0000_0000_0000_0000
  {
    SmallPowers();
    hide Pow2;
    Pow2Add(11, 11);
    Pow2Add(8, 15);
    Pow2Add(8, 23);
    Pow2Add(8, 14);
    Pow2Add(22, 14);
    Pow2Add(15, 36);
    Pow2Add(15, 37);
    Pow2Add(15, 22);
    Pow2Add(11, 52);
    Pow2Add(52, 52);
    Pow2Add(7, 104);
    Pow2Add(8, 104);
    Pow2Add(15, 112);
  }

  lemma SmallPowers()
    ensures Pow2(3) == 8 && Pow2(7) == 128 && Pow2(8) == 0x100 && Pow2(10) == 1024 && Pow2(11) == 2048
    ensures Pow2(14) == 16384 && Pow2(15) == 32768
  {
    assert Pow2(3) == 8;
    assert Pow2(7) == 128;
    assert Pow2(11) == 2048;
  }

  /** float.c. */
  lemma SingleFormat()
    ensures Single.Top() == 255 && Single.Bias() == 127 && Single.Implicit() == 0x0080_0000
    ensures PartedBy(Single, 0x8000_0000, 0x7F80_0000)
    ensures Leading(Single) == 26 && Single.word == 64
    ensures EmptyNan(Single) == 0x7FC0_0000 && Pow2(Single.fraction - 1) == 0x0040_0000
    ensures MagnitudeValue(Single, 0x3F80_0000) == Single.One() == Pow2(149)
  {
    FieldPowers();
    Anchors(Single);
    Parted(Single);
    hide Pow2, Value, Magnitude;
  }

  /** double.c. */
  lemma DoubleFormat()
    ensures Double.Top() == 2047 && Double.Bias() == 1023 && Double.Implicit() == 0x0010_0000_0000_0000
    ensures PartedBy(Double, 0x8000_0000_0000_0000, 0x7FF0_0000_0000_0000)
    ensures Leading(Double) == 55 && Double.word == 64
    ensures EmptyNan(Double) == 0x7FF8_0000_0000_0000 && Pow2(Double.fraction - 1) == 0x0008_0000_0000_0000
    ensures MagnitudeValue(Double, 0x3FF0_0000_0000_0000) == Double.One() == Pow2(1074)
  {
    FieldPowers();
    Anchors(Double);
    Parted(Double);
    hide Pow2, Value, Magnitude;
  }

  /** quad.c, with a pattern as one number. */
  lemma QuadFormat()
    ensures Quad.Top() == 32767 && Quad.Bias() == 16383
    ensures Quad.Implicit() == 0x0001_0000_0000_0000_0000_0000_0000_0000
    ensures PartedBy(Quad, 0x8000_0000_0000_0000_0000_0000_0000_0000, 0x7FFF_0000_0000_0000_0000_0000_0000_0000)
    ensures Leading(Quad) == 115 && Quad.word == 128
    ensures EmptyNan(Quad) == 0x7FFF_8000_0000_0000_0000_0000_0000_0000
    ensures Pow2(Quad.fraction - 1) == 0x0000_8000_0000_0000_0000_0000_0000_0000
    ensures MagnitudeValue(Quad, 0x3FFF_0000_0000_0000_0000_0000_0000_0000) == Quad.One() == Pow2(16494)
  {
    FieldPowers();
    Anchors(Quad);
    Parted(Quad);
    hide Pow2, Value, Magnitude;
  }
}
