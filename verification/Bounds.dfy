/** The bounds compression of xtask/src/compress.rs: a range of bytes widened until an exponent and a mantissa can
  * name it.
  */
module Bounds {
  import opened Powers
  import opened Bits

  // One past the largest address, 2^64.
  const SPACE: nat := 0x1_0000_0000_0000_0000

  datatype Range = Range(lo: nat, ext: nat) {
    function Top(): nat { lo + ext }

    predicate InSpace() { Top() < SPACE }

    predicate Contains(inner: Range) { lo <= inner.lo && inner.Top() <= Top() }
  }

  /** What is answered where nothing narrower will do. */
  const WHOLE: Range := Range(0, SPACE - 1)

  predicate IsMultiple(x: nat, e: nat) { x % Pow2(e) == 0 }

  /** A range that a mantissa of so many bits names at an exponent: both ends on granules, and few enough of them. */
  predicate NamedAt(r: Range, mantissa: nat, e: nat) {
    && r.InSpace() && IsMultiple(r.lo, e) && IsMultiple(r.Top(), e)
    && r.ext <= Shl(Pow2(mantissa) - 1, e)
  }

  /** A range that can be said at all. */
  ghost predicate Nameable(r: Range, mantissa: nat) {
    r == WHOLE || exists e: nat :: e < 64 && NamedAt(r, mantissa, e)
  }

  /** The range that can be said, contains a range, and is inside every other that does. */
  ghost predicate IsLeast(held: Range, r: Range, mantissa: nat) {
    && Nameable(held, mantissa) && held.Contains(r)
    && forall other: Range :: Nameable(other, mantissa) && other.Contains(r) ==> other.Contains(held)
  }

  /** An address with its low bits cleared. */
  function Down(x: nat, e: nat): (r: nat)
    ensures r == x - x % Pow2(e) <= x
  {
    AndMask(x, e);
    DivModFacts(x, Pow2(e));
    DivBounds(x, Pow2(e));
    x - And(x, Pow2(e) - 1)
  }

  /** The addition that is checked for leaving the space. */
  predicate Raisable(x: nat, e: nat) { x + (Pow2(e) - 1) < SPACE }

  function Up(x: nat, e: nat): nat { Down(x + (Pow2(e) - 1), e) }

  lemma DownIsMultiple(x: nat, e: nat)
    ensures IsMultiple(Down(x, e), e)
    ensures x < Down(x, e) + Pow2(e)
  {
    var p := Pow2(e);
    DivModFacts(x, p);
    DivModUnique(x - x % p, p, x / p, 0);
  }

  /** Nothing between an address and its granule is a multiple. */
  lemma DownIsGreatest(x: nat, e: nat, y: nat)
    requires IsMultiple(y, e) && y <= x
    ensures y <= Down(x, e)
  {
    var p := Pow2(e);
    DivModFacts(x, p);
    DivModFacts(y, p);
    if y / p > x / p { MulMono(x / p + 1, y / p, p); Distribute(x / p, 1, p); } else { MulMono(y / p, x / p, p); }
  }

  lemma UpIsLeast(x: nat, e: nat)
    ensures IsMultiple(Up(x, e), e) && x <= Up(x, e) < x + Pow2(e)
    ensures forall y: nat :: IsMultiple(y, e) && x <= y ==> Up(x, e) <= y
  {
    DownIsMultiple(x + (Pow2(e) - 1), e);
    forall y: nat | IsMultiple(y, e) && x <= y
      ensures Up(x, e) <= y
    {
      if y < Up(x, e) { MultiplesApart(y, Up(x, e), e); }
    }
  }

  lemma MultiplesApart(x: nat, y: nat, e: nat)
    requires IsMultiple(x, e) && IsMultiple(y, e) && x < y
    ensures x + Pow2(e) <= y
  {
    var p := Pow2(e);
    DivModFacts(x, p);
    DivModFacts(y, p);
    MulStrict(x / p, y / p, p);
    MulMono(x / p + 1, y / p, p);
    Distribute(x / p, 1, p);
  }

  lemma SpaceIsMultiple(e: nat)
    requires e <= 64
    ensures Pow2(e) <= SPACE && IsMultiple(SPACE, e)
  {
    Pow2Words();
    Pow2Add(64 - e, e);
    Pow2Mono(e, 64);
    DivModUnique(SPACE, Pow2(e), Pow2(64 - e), 0);
  }

  /** The addition leaves the space exactly where the granule it would end in does. */
  lemma RaisableIsInSpace(x: nat, e: nat)
    requires e <= 64 && x < SPACE
    ensures Raisable(x, e) <==> Up(x, e) < SPACE
  {
    SpaceIsMultiple(e);
    UpIsLeast(x, e);
    hide Pow2;
    if Up(x, e) < SPACE { MultiplesApart(Up(x, e), SPACE, e); }
  }

  /** A multiple at a wider granule is one at a narrower. */
  lemma MultipleNarrower(x: nat, e: nat, e': nat)
    requires e' <= e && IsMultiple(x, e)
    ensures IsMultiple(x, e')
  {
    Pow2Add(e - e', e');
    var p, q := Pow2(e'), Pow2(e - e');
    DivModFacts(x, Pow2(e));
    MulAssoc(x / Pow2(e), q, p);
    DivModUnique(x, p, x / Pow2(e) * q, 0);
  }

  /** The range that is tried at an exponent. */
  function Tried(r: Range, e: nat): Range
    requires Down(r.lo, e) <= Up(r.Top(), e)
  {
    Range(Down(r.lo, e), Up(r.Top(), e) - Down(r.lo, e))
  }

  lemma TriedContains(r: Range, e: nat)
    ensures Down(r.lo, e) <= Up(r.Top(), e)
    ensures Tried(r, e).Contains(r) && IsMultiple(Tried(r, e).lo, e) && IsMultiple(Tried(r, e).Top(), e)
  {
    UpIsLeast(r.Top(), e);
    DownIsMultiple(r.lo, e);
  }

  /** A range named at an exponent contains another exactly where it contains what is tried there. */
  lemma NamedContainsTried(r: Range, other: Range, mantissa: nat, e: nat)
    requires e < 64 && r.InSpace() && NamedAt(other, mantissa, e) && other.Contains(r)
    ensures Down(r.lo, e) <= Up(r.Top(), e) && other.Contains(Tried(r, e))
    ensures Raisable(r.Top(), e) && NamedAt(Tried(r, e), mantissa, e)
  {
    TriedContains(r, e);
    DownIsGreatest(r.lo, e, other.lo);
    UpIsLeast(r.Top(), e);
    RaisableIsInSpace(r.Top(), e);
  }

  /** What is tried at a wider exponent contains what is tried at a narrower. */
  lemma TriedGrows(r: Range, e: nat, e': nat)
    requires e' <= e
    ensures Down(r.lo, e) <= Up(r.Top(), e) && Down(r.lo, e') <= Up(r.Top(), e')
    ensures Tried(r, e).Contains(Tried(r, e'))
  {
    TriedContains(r, e);
    TriedContains(r, e');
    MultipleNarrower(Tried(r, e).lo, e, e');
    MultipleNarrower(Tried(r, e).Top(), e, e');
    DownIsGreatest(r.lo, e', Tried(r, e).lo);
    UpIsLeast(r.Top(), e');
  }

  /** The first exponent at which the range that is tried can be said. */
  ghost predicate FirstAt(r: Range, mantissa: nat, e: nat) {
    && e <= 64
    && (e < 64 ==> Down(r.lo, e) <= Up(r.Top(), e) && NamedAt(Tried(r, e), mantissa, e))
    && forall e': nat :: e' < e ==> Down(r.lo, e') <= Up(r.Top(), e') && !NamedAt(Tried(r, e'), mantissa, e')
  }

  lemma FirstIsLeast(r: Range, mantissa: nat, e: nat)
    requires r.InSpace() && FirstAt(r, mantissa, e)
    ensures IsLeast(if e < 64 then Tried(r, e) else WHOLE, r, mantissa)
  {
    var held := if e < 64 then Tried(r, e) else WHOLE;
    if e < 64 { TriedContains(r, e); }
    forall other: Range | Nameable(other, mantissa) && other.Contains(r)
      ensures other.Contains(held)
    {
      if other != WHOLE {
        var e' :| e' < 64 && NamedAt(other, mantissa, e');
        NamedContainsTried(r, other, mantissa, e');
        if e <= e' { TriedGrows(r, e', e); }
      }
    }
  }

  /** `round`: the least range that can be said and contains this one. */
  method Round(r: Range, mantissa: nat) returns (held: Range, ghost at: nat)
    requires r.InSpace() && mantissa < 64
    ensures IsLeast(held, r, mantissa)
    ensures FirstAt(r, mantissa, at) && held == if at < 64 then Tried(r, at) else WHOLE
  {
    hide IsLeast, NamedAt, Pow2, Down, Up;
    for e := 0 to 64
      invariant forall e': nat :: e' < e ==> Down(r.lo, e') <= Up(r.Top(), e') && !NamedAt(Tried(r, e'), mantissa, e')
    {
      TriedContains(r, e);
      TriedIsNamed(r, mantissa, e);
      var lo := Down(r.lo, e);
      if !Raisable(r.Top(), e) { continue; }
      var top := Up(r.Top(), e);
      if top - lo <= Shl(Pow2(mantissa) - 1, e) {
        FirstIsLeast(r, mantissa, e);
        return Range(lo, top - lo), e;
      }
    }
    FirstIsLeast(r, mantissa, 64);
    held, at := WHOLE, 64;
  }

  /** What the loop tests is what makes the range that is tried one that can be said. */
  lemma TriedIsNamed(r: Range, mantissa: nat, e: nat)
    requires e < 64 && r.InSpace()
    ensures Down(r.lo, e) <= Up(r.Top(), e)
    ensures NamedAt(Tried(r, e), mantissa, e)
            <==> Raisable(r.Top(), e) && Up(r.Top(), e) - Down(r.lo, e) <= Shl(Pow2(mantissa) - 1, e)
  {
    TriedContains(r, e);
    RaisableIsInSpace(r.Top(), e);
  }

  lemma LeastIsUnique(held: Range, other: Range, r: Range, mantissa: nat)
    requires IsLeast(held, r, mantissa) && IsLeast(other, r, mantissa)
    ensures held == other
  {
    assert held.Contains(other) && other.Contains(held);
  }

  /** Rounding keeps inclusion. */
  lemma RoundingIsMonotone(inner: Range, outer: Range, mantissa: nat, inHeld: Range, outHeld: Range)
    requires outer.Contains(inner) && IsLeast(inHeld, inner, mantissa) && IsLeast(outHeld, outer, mantissa)
    ensures outHeld.Contains(inHeld)
  {
    assert outHeld.Contains(inner);
  }

  /** Rounding what has been rounded changes nothing. */
  lemma RoundingIsIdempotent(r: Range, mantissa: nat, held: Range, again: Range)
    requires IsLeast(held, r, mantissa) && IsLeast(again, held, mantissa)
    ensures again == held
  {
    assert held.Contains(held) && held.Contains(again) && again.Contains(held);
  }

  // How many bytes wider than the truth.
  function Wider(held: Range, r: Range): int { (r.lo - held.lo) + (held.Top() - r.Top()) }

  /** A wider mantissa is never a worse answer. */
  lemma WiderMantissaIsNoWorse(r: Range, mantissa: nat, more: nat, held: Range, heldMore: Range)
    requires mantissa <= more && IsLeast(held, r, mantissa) && IsLeast(heldMore, r, more)
    ensures held.Contains(heldMore) && Wider(heldMore, r) <= Wider(held, r)
  {
    if held != WHOLE {
      var e :| e < 64 && NamedAt(held, mantissa, e);
      Pow2Mono(mantissa, more);
      MulMono(Pow2(mantissa) - 1, Pow2(more) - 1, Pow2(e));
      assert NamedAt(held, more, e);
    }
    assert Nameable(held, more);
  }

  /** `slack`. */
  method Slack(r: Range, mantissa: nat) returns (extra: nat)
    requires r.InSpace() && mantissa < 64
    ensures exists held: Range :: IsLeast(held, r, mantissa) && extra == Wider(held, r) == held.ext - r.ext
  {
    var held, _ := Round(r, mantissa);
    extra := (r.lo - held.lo) + (held.Top() - r.Top());
  }

  /** A multiple of a granule that is more than `n` granules is at least one more than that many. */
  lemma GranuleMore(x: nat, e: nat, n: nat)
    requires IsMultiple(x, e) && x > Shl(n, e)
    ensures x >= Shl(n, e) + Pow2(e)
  {
    DivModUnique(Shl(n, e), Pow2(e), n, 0);
    MultiplesApart(Shl(n, e), x, e);
  }

  lemma MultipleDifference(x: nat, y: nat, e: nat)
    requires IsMultiple(x, e) && IsMultiple(y, e) && x <= y
    ensures IsMultiple(y - x, e)
  {
    var p := Pow2(e);
    DivModFacts(x, p);
    DivModFacts(y, p);
    DivBounds(x, p);
    Distribute(y / p, x / p, p);
    DivModUnique(y - x, p, y / p - x / p, 0);
  }

  /** An exponent at which an addition does not leave the space is reached at no narrower one either. */
  lemma RaisableNarrower(x: nat, e: nat, e': nat)
    requires e' <= e && Raisable(x, e)
    ensures Raisable(x, e')
  {
    Pow2Mono(e', e);
  }

  lemma ShlNext(n: nat, e: nat)
    requires n > 0
    ensures Shl(n, e) == Shl(n - 1, e) + Pow2(e)
  {
    Distribute(n - 1, 1, Pow2(e));
  }

  /** Where an exponent was too narrow, the range is long for its granule. */
  lemma TooNarrowIsLong(r: Range, mantissa: nat, e: nat)
    requires e < 64 && r.InSpace() && Raisable(r.Top(), e)
    requires Down(r.lo, e) <= Up(r.Top(), e) && !NamedAt(Tried(r, e), mantissa, e)
    ensures r.ext + 2 * Pow2(e) >= Shl(Pow2(mantissa), e) + 2
  {
    hide *;
    TooManyGranules(r, mantissa, e);
    UpIsLeast(r.Top(), e);
    DownIsMultiple(r.lo, e);
    ShlNext(Pow2(mantissa), e);
    LengthOf(r);
  }

  lemma LengthOf(r: Range)
    ensures r.Top() == r.lo + r.ext
  {
  }

  lemma TooManyGranules(r: Range, mantissa: nat, e: nat)
    requires e < 64 && r.InSpace() && Raisable(r.Top(), e)
    requires Down(r.lo, e) <= Up(r.Top(), e) && !NamedAt(Tried(r, e), mantissa, e)
    ensures Up(r.Top(), e) - Down(r.lo, e) >= Shl(Pow2(mantissa) - 1, e) + Pow2(e)
  {
    hide *;
    TriedIsNamed(r, mantissa, e);
    DownIsMultiple(r.lo, e);
    UpIsLeast(r.Top(), e);
    MultipleDifference(Down(r.lo, e), Up(r.Top(), e), e);
    GranuleMore(Up(r.Top(), e) - Down(r.lo, e), e, Pow2(mantissa) - 1);
  }

  /** What rounding adds is less than four parts in two to the mantissa less three, wherever there is something to
    * round to.
    */
  lemma SlackIsBounded(r: Range, mantissa: nat, e: nat)
    requires r.InSpace() && r.ext > 0 && mantissa >= 2
    requires e < 64 && FirstAt(r, mantissa, e)
    ensures Pow2(mantissa) >= 4
    ensures Down(r.lo, e) <= Up(r.Top(), e)
    ensures Wider(Tried(r, e), r) * (Pow2(mantissa) - 3) < 4 * r.ext
  {
    assert Pow2(2) == 4;
    Pow2Mono(2, mantissa);
    TriedContains(r, e);
    UpIsLeast(r.Top(), e);
    DownIsMultiple(r.lo, e);
    if e == 0 {
      assert Pow2(0) == 1;
      assert Wider(Tried(r, e), r) == 0;
    } else {
      TriedIsNamed(r, mantissa, e);
      RaisableNarrower(r.Top(), e, e - 1);
      TooNarrowIsLong(r, mantissa, e - 1);
      assert Pow2(e) == 2 * Pow2(e - 1);
      FourParts(Wider(Tried(r, e), r), Pow2(e - 1), Pow2(mantissa), r.ext);
    }
  }

  lemma FourParts(extra: int, s: nat, m: nat, ext: nat)
    requires m >= 4 && s > 0 && extra <= 4 * s - 2 && ext + 2 * s >= m * s + 2
    ensures extra * (m - 3) < 4 * ext
  {
    MulMono(extra, 4 * s - 2, m - 3);
    Distribute(4 * s, 2, m - 3);
    Distribute(m, 3, s);
    assert 4 * s * (m - 3) == 4 * ((m - 3) * s);
  }

  /** The exponent that a length needs: the least at which the mantissa counts its whole granules. */
  predicate IsExponent(size: nat, mantissa: nat, n: nat) {
    Shr(size, n) < Pow2(mantissa) && (n > 0 ==> Shr(size, n - 1) >= Pow2(mantissa))
  }

  /** `exponent`: the exponent that a length needs. A mantissa of no bits counts no granules, and there is none for a
    * length that reaches the last exponent.
    */
  method Exponent(size: nat, mantissa: nat) returns (e: nat)
    requires size < SPACE && mantissa < 64
    ensures e <= 63 && (IsExponent(size, mantissa, e) <==> mantissa >= 1 || size < Pow2(63))
    ensures forall e': nat :: e' < e ==> Shr(size, e') >= Pow2(mantissa)
  {
    hide Pow2;
    e := 0;
    while e < 63 && Shr(size, e) > Pow2(mantissa) - 1
      invariant e <= 63
      invariant forall e': nat :: e' < e ==> Shr(size, e') >= Pow2(mantissa)
    {
      e := e + 1;
    }
    LastExponent(size, mantissa, e);
  }

  lemma LastExponent(size: nat, mantissa: nat, e: nat)
    requires size < SPACE && e <= 63
    ensures Shr(size, e) < Pow2(mantissa) ==> mantissa >= 1 || size < Pow2(63)
    ensures e == 63 && (mantissa >= 1 || size < Pow2(63)) ==> Shr(size, e) < Pow2(mantissa)
  {
    Pow2Words();
    assert Pow2(64) == 2 * Pow2(63);
    Pow2Mono(e, 63);
    if mantissa == 0 {
      assert Pow2(0) == 1;
      DivBounds(size, Pow2(e));
      if size < Pow2(63) { ModSmall(size, Pow2(63)); }
    } else {
      assert Pow2(1) == 2;
      Pow2Mono(1, mantissa);
      DivBelow(size, Pow2(63), 2);
    }
  }

  /** The length in granules of the exponent it needs. */
  lemma LengthInGranules(size: nat, mantissa: nat, n: nat)
    requires Shr(size, n) < Pow2(mantissa)
    requires n > 0 ==> Shr(size, n - 1) >= Pow2(mantissa)
    ensures size < Shl(Pow2(mantissa), n)
    ensures n > 0 ==> 2 * size >= Shl(Pow2(mantissa), n)
  {
    DivBounds(size, Pow2(n));
    MulMono(size / Pow2(n) + 1, Pow2(mantissa), Pow2(n));
    if n > 0 {
      var half := Pow2(n - 1);
      assert Pow2(n) == 2 * half;
      DivBounds(size, half);
      MulMono(Pow2(mantissa), size / half, half);
      MulAssoc(Pow2(mantissa), 2, half);
      MulAssoc(2, Pow2(mantissa), half);
    }
  }

  /** At a base on a granule the range that is tried keeps its base and rounds its length up. */
  lemma AlignedTried(r: Range, e: nat, wide: nat)
    requires e <= wide && IsMultiple(r.lo, wide)
    ensures Down(r.lo, e) == r.lo
    ensures r.Top() <= Up(r.Top(), e) < r.Top() + Pow2(e)
    ensures IsMultiple(Up(r.Top(), e) - r.lo, e)
  {
    MultipleNarrower(r.lo, wide, e);
    UpIsLeast(r.Top(), e);
    MultipleDifference(r.lo, Up(r.Top(), e), e);
  }

  /** A length that reaches past the last whole count of granules reaches the next, which is a count of granules
    * twice as wide.
    */
  lemma NextGranule(r: Range, mantissa: nat, n: nat)
    requires mantissa >= 1 && IsMultiple(r.lo, n + 1) && r.ext <= Shl(Pow2(mantissa), n)
    ensures Up(r.Top(), n + 1) - r.lo <= Shl(Pow2(mantissa), n) <= Shl(Pow2(mantissa) - 1, n + 1)
  {
    var half := Pow2(mantissa - 1);
    assert Pow2(mantissa) == 2 * half && Pow2(n + 1) == 2 * Pow2(n);
    MulAssoc(half, 2, Pow2(n));
    MulAssoc(2, half, Pow2(n));
    MulMono(half, Pow2(mantissa) - 1, Pow2(n + 1));
    assert Shl(Pow2(mantissa), n) == half * Pow2(n + 1);
    UpIsLeast(r.Top(), n + 1);
    SumOfMultiples(r.lo, half, n + 1);
  }

  lemma SumOfMultiples(x: nat, k: nat, e: nat)
    requires IsMultiple(x, e)
    ensures IsMultiple(x + Shl(k, e), e)
  {
    DivModFacts(x, Pow2(e));
    Distribute(x / Pow2(e), k, Pow2(e));
    DivModUnique(x + Shl(k, e), Pow2(e), x / Pow2(e) + k, 0);
  }

  /** With its base on twice the granule that its length needs, a range is named at most one exponent past that. */
  lemma AlignedExponent(r: Range, mantissa: nat, e: nat, n: nat)
    requires r.InSpace() && mantissa >= 1 && IsMultiple(r.lo, n + 1)
    requires e < 64 && FirstAt(r, mantissa, e) && r.ext < Shl(Pow2(mantissa), n)
    ensures e <= n + 1
  {
    if e > n + 1 {
      TriedIsNamed(r, mantissa, e);
      RaisableNarrower(r.Top(), e, n + 1);
      AlignedTried(r, n + 1, n + 1);
      NextGranule(r, mantissa, n);
      TriedIsNamed(r, mantissa, n + 1);
      assert false;
    }
  }

  /** And what it is rounded by is less than that granule. */
  lemma AlignedSlack(r: Range, mantissa: nat, e: nat, n: nat)
    requires r.InSpace() && mantissa >= 1 && IsMultiple(r.lo, n + 1)
    requires e < 64 && FirstAt(r, mantissa, e) && r.ext < Shl(Pow2(mantissa), n)
    ensures Down(r.lo, e) == r.lo && r.Top() <= Up(r.Top(), e) < r.Top() + Pow2(n)
  {
    AlignedExponent(r, mantissa, e, n);
    AlignedTried(r, e, n + 1);
    if e <= n { Pow2Mono(e, n); } else { OnePastItsGranule(r, mantissa, n); }
  }

  lemma OnePastItsGranule(r: Range, mantissa: nat, n: nat)
    requires n + 1 < 64 && r.InSpace() && mantissa >= 1 && IsMultiple(r.lo, n + 1)
    requires FirstAt(r, mantissa, n + 1) && r.ext < Shl(Pow2(mantissa), n)
    ensures Up(r.Top(), n + 1) < r.Top() + Pow2(n)
  {
    hide *;
    NotNarrowerThan(r, mantissa, n + 1, n);
    AlignedTried(r, n, n + 1);
    TooManyGranules(r, mantissa, n);
    ShlNext(Pow2(mantissa), n);
    LengthOf(r);
    NextGranule(r, mantissa, n);
  }

  lemma TwoParts(extra: int, n: nat, m: nat, ext: nat)
    requires 0 <= extra < Pow2(n) && m > 0 && ext > 0
    requires n > 0 ==> 2 * ext >= Shl(m, n)
    ensures extra * m < 2 * ext
  {
    if n == 0 { assert Pow2(0) == 1; } else { MulStrict(extra, Pow2(n), m); }
  }

  /** A range whose base is on twice the granule its length needs is rounded by less than two parts in two to the
    * mantissa.
    */
  lemma AlignedSlackIsBounded(r: Range, mantissa: nat, e: nat, n: nat)
    requires r.InSpace() && r.ext > 0 && mantissa >= 1
    requires IsExponent(r.ext, mantissa, n)
    requires IsMultiple(r.lo, n + 1) && e < 64 && FirstAt(r, mantissa, e)
    ensures Down(r.lo, e) <= Up(r.Top(), e)
    ensures Wider(Tried(r, e), r) * Pow2(mantissa) < 2 * r.ext
  {
    hide IsMultiple, FirstAt, Down, Up, Pow2, Shl;
    LengthInGranules(r.ext, mantissa, n);
    AlignedSlack(r, mantissa, e, n);
    TwoParts(Wider(Tried(r, e), r), n, Pow2(mantissa), r.ext);
  }

  lemma EndsAt(x: nat, e: nat, p: nat)
    requires p == Pow2(e)
    ensures Down(x, e) == x - x % p && Up(x, e) == x + p - 1 - (x + p - 1) % p
  {
    hide And;
  }

  lemma TriedAt(r: Range, mantissa: nat, e: nat, p: nat, m: nat)
    requires e < 64 && p == Pow2(e) && m == Pow2(mantissa) && r.InSpace() && r.Top() + p <= SPACE
    ensures var lo, top := r.lo - r.lo % p, r.Top() + p - 1 - (r.Top() + p - 1) % p;
      && Down(r.lo, e) <= Up(r.Top(), e) && lo <= top && Tried(r, e) == Range(lo, top - lo)
      && (NamedAt(Tried(r, e), mantissa, e) <==> top - lo <= (m - 1) * p)
  {
    hide Down, Up, NamedAt, IsMultiple, Pow2;
    EndsAt(r.lo, e, p);
    EndsAt(r.Top(), e, p);
    TriedIsNamed(r, mantissa, e);
  }

  /** A base on a granule but not on two is one granule above where two would have it. */
  lemma OddGranule(x: nat, n: nat)
    requires IsMultiple(x, n) && !IsMultiple(x, n + 1)
    ensures Down(x, n + 1) + Pow2(n) == x
  {
    Pow2Next(n);
    hide IsMultiple, Down, Pow2;
    DownIsMultiple(x, n + 1);
    MultipleNarrower(Down(x, n + 1), n + 1, n);
    MultiplesApart(Down(x, n + 1), x, n);
    TwoGranulesUp(Down(x, n + 1), n);
    MultiplesApart(x, Down(x, n + 1) + Pow2(n + 1), n);
  }

  lemma TwoGranulesUp(x: nat, n: nat)
    requires IsMultiple(x, n + 1)
    ensures IsMultiple(x + Pow2(n + 1), n)
  {
    SumOfMultiples(x, 1, n + 1);
    MultipleNarrower(x + Pow2(n + 1), n + 1, n);
  }

  /** A length of too many granules is named no narrower than at the next exponent. */
  lemma LongIsNamedWider(r: Range, mantissa: nat, e: nat, n: nat)
    requires e < 64 && FirstAt(r, mantissa, e) && r.ext > Shl(Pow2(mantissa) - 1, n)
    ensures e >= n + 1
  {
    if e <= n {
      TriedContains(r, e);
      Pow2Mono(e, n);
      MulMono(Pow2(e), Pow2(n), Pow2(mantissa) - 1);
    }
  }

  /** A length that the granule counts is named there, at a base on the granule, if there is room. */
  lemma ShortIsNamed(r: Range, mantissa: nat, n: nat)
    requires n < 64 && r.InSpace() && IsMultiple(r.lo, n) && r.ext <= Shl(Pow2(mantissa) - 1, n)
    requires Raisable(r.Top(), n)
    ensures Down(r.lo, n) <= Up(r.Top(), n) && NamedAt(Tried(r, n), mantissa, n)
  {
    hide *;
    LengthOf(r);
    AlignedTried(r, n, n);
    SumOfMultiples(r.lo, Pow2(mantissa) - 1, n);
    UpIsLeast(r.Top(), n);
    TriedIsNamed(r, mantissa, n);
  }

  /** And one that does not fit is named at the next exponent, at a base on that granule, if there is room. */
  lemma LongIsNamed(r: Range, mantissa: nat, n: nat)
    requires n + 1 < 64 && r.InSpace() && mantissa >= 1 && IsMultiple(r.lo, n + 1) && r.ext <= Shl(Pow2(mantissa), n)
    requires Raisable(r.Top(), n + 1)
    ensures Down(r.lo, n + 1) <= Up(r.Top(), n + 1) && NamedAt(Tried(r, n + 1), mantissa, n + 1)
  {
    hide *;
    AlignedTried(r, n + 1, n + 1);
    NextGranule(r, mantissa, n);
    TriedIsNamed(r, mantissa, n + 1);
  }

  /** A length that the granule counts is named there at the latest. */
  lemma ShortIsNamedThere(r: Range, mantissa: nat, e: nat, n: nat)
    requires r.InSpace() && IsMultiple(r.lo, n) && r.ext <= Shl(Pow2(mantissa) - 1, n)
    requires e < 64 && FirstAt(r, mantissa, e)
    ensures e <= n
  {
    hide *;
    if e > n {
      NotNarrowerThan(r, mantissa, e, n);
      ShortIsNamed(r, mantissa, n);
    }
  }

  lemma NotNarrowerThan(r: Range, mantissa: nat, e: nat, n: nat)
    requires n < e < 64 && r.InSpace() && FirstAt(r, mantissa, e)
    ensures Down(r.lo, n) <= Up(r.Top(), n) && !NamedAt(Tried(r, n), mantissa, n) && Raisable(r.Top(), n)
  {
    hide Down, Up, NamedAt;
    TriedIsNamed(r, mantissa, e);
    RaisableNarrower(r.Top(), e, n);
  }

  /** From an odd granule, a length of too many granules is widened by a granule below and to an odd one above. */
  lemma OddSlack(r: Range, mantissa: nat, e: nat, n: nat)
    requires r.InSpace() && mantissa >= 1 && IsMultiple(r.lo, n) && !IsMultiple(r.lo, n + 1)
    requires e < 64 && FirstAt(r, mantissa, e) && r.ext > Shl(Pow2(mantissa) - 1, n)
    ensures Down(r.lo, e) <= Up(r.Top(), e)
    ensures Wider(Tried(r, e), r) >= Shl(Pow2(mantissa) + 2, n) - r.ext
  {
    hide *;
    LengthOf(r);
    LongIsNamedWider(r, mantissa, e, n);
    EndsGrow(r, e, n + 1);
    OddGranule(r.lo, n);
    GranulesPast(r, mantissa, n, Down(r.lo, n + 1));
    ShlTwoMore(Pow2(mantissa), n);
  }

  lemma EndsGrow(r: Range, e: nat, e': nat)
    requires e' <= e
    ensures Down(r.lo, e) <= Down(r.lo, e') <= r.lo && r.Top() <= Up(r.Top(), e') <= Up(r.Top(), e)
    ensures Wider(Tried(r, e), r) == r.lo - Down(r.lo, e) + Up(r.Top(), e) - r.Top()
  {
    hide Down, Up;
    TriedContains(r, e);
    TriedContains(r, e');
    TriedGrows(r, e, e');
  }

  lemma ShlTwoMore(k: nat, n: nat)
    requires k > 0
    ensures Shl(k + 2, n) == Shl(k, n) + 2 * Pow2(n) && Shl(k, n) == Shl(k - 1, n) + Pow2(n)
  {
    Distribute(k, 2, Pow2(n));
    Distribute(k - 1, 1, Pow2(n));
  }

  lemma GranulesPast(r: Range, mantissa: nat, n: nat, base: nat)
    requires mantissa >= 1 && base == Down(r.lo, n + 1) && base + Pow2(n) == r.lo
    requires r.ext > Shl(Pow2(mantissa) - 1, n)
    ensures Up(r.Top(), n + 1) >= base + Shl(Pow2(mantissa), n) + 2 * Pow2(n)
  {
    hide *;
    LengthOf(r);
    HalfGranules(mantissa, n);
    ShlTwoMore(Pow2(mantissa), n);
    DownIsMultiple(r.lo, n + 1);
    GranuleAbove(base, Pow2(mantissa - 1), n, r.Top());
  }

  lemma GranuleAbove(base: nat, k: nat, n: nat, top: nat)
    requires IsMultiple(base, n + 1) && base + Shl(k, n + 1) < top
    ensures Up(top, n + 1) >= base + Shl(k, n + 1) + 2 * Pow2(n)
  {
    hide *;
    Pow2Next(n);
    SumOfMultiples(base, k, n + 1);
    UpIsLeast(top, n + 1);
    MultiplesApart(base + Shl(k, n + 1), Up(top, n + 1), n + 1);
  }

  lemma HalfGranules(mantissa: nat, n: nat)
    requires mantissa >= 1
    ensures Shl(Pow2(mantissa - 1), n + 1) == Shl(Pow2(mantissa), n)
  {
    Pow2Next(mantissa - 1);
    Pow2Next(n);
    MulAssoc(Pow2(mantissa - 1), 2, Pow2(n));
  }

  lemma NotTwoParts(extra: int, m: nat, n: nat, ext: nat)
    requires m > 0 && extra >= Shl(m + 2, n) - ext && ext <= Shl(m, n)
    ensures extra * m >= 2 * ext
  {
    var p := Pow2(n);
    MulMono((m + 2) * p - ext, extra, m);
    Distribute((m + 2) * p, ext, m);
    MulMono(ext, m * p, m + 2);
    Distribute(m, 2, ext);
    assert (m + 2) * p * m == m * p * (m + 2);
  }

  /** With its base on the granule its length needs, a range is rounded by less than two parts in two to the mantissa
    * exactly where the base is on twice that granule or the length is no more granules than the mantissa counts.
    */
  lemma AlignedSlackExactly(r: Range, mantissa: nat, e: nat, n: nat)
    requires r.InSpace() && r.ext > 0 && mantissa >= 1 && IsExponent(r.ext, mantissa, n)
    requires IsMultiple(r.lo, n) && e < 64 && FirstAt(r, mantissa, e)
    ensures Down(r.lo, e) <= Up(r.Top(), e)
    ensures Wider(Tried(r, e), r) * Pow2(mantissa) < 2 * r.ext
            <==> IsMultiple(r.lo, n + 1) || r.ext <= Shl(Pow2(mantissa) - 1, n)
  {
    hide IsMultiple, Shl, Pow2, Down, Up, FirstAt, Tried, Wider;
    TriedContains(r, e);
    if IsMultiple(r.lo, n + 1) {
      AlignedSlackIsBounded(r, mantissa, e, n);
    } else if r.ext <= Shl(Pow2(mantissa) - 1, n) {
      ShortSlackIsBounded(r, mantissa, e, n);
    } else {
      LengthInGranules(r.ext, mantissa, n);
      OddSlack(r, mantissa, e, n);
      NotTwoParts(Wider(Tried(r, e), r), Pow2(mantissa), n, r.ext);
    }
  }

  lemma ShortSlackIsBounded(r: Range, mantissa: nat, e: nat, n: nat)
    requires r.InSpace() && r.ext > 0 && mantissa >= 1 && IsExponent(r.ext, mantissa, n)
    requires IsMultiple(r.lo, n) && e < 64 && FirstAt(r, mantissa, e) && r.ext <= Shl(Pow2(mantissa) - 1, n)
    ensures Down(r.lo, e) <= Up(r.Top(), e)
    ensures Wider(Tried(r, e), r) * Pow2(mantissa) < 2 * r.ext
  {
    hide IsMultiple, Shl, Pow2, Down, Up, FirstAt;
    LengthInGranules(r.ext, mantissa, n);
    ShortIsNamedThere(r, mantissa, e, n);
    AlignedTried(r, e, n);
    Pow2Mono(e, n);
    TwoParts(Wider(Tried(r, e), r), n, Pow2(mantissa), r.ext);
  }

  /** Some exponent is the first, if only the one past the last. */
  lemma FirstExponent(r: Range, mantissa: nat) returns (e: nat)
    requires r.InSpace()
    ensures FirstAt(r, mantissa, e)
  {
    hide NamedAt, Down, Up;
    e := 0;
    TriedContains(r, e);
    while e < 64 && !NamedAt(Tried(r, e), mantissa, e)
      invariant e <= 64 && Down(r.lo, e) <= Up(r.Top(), e)
      invariant forall e': nat :: e' < e ==> Down(r.lo, e') <= Up(r.Top(), e') && !NamedAt(Tried(r, e'), mantissa, e')
    {
      e := e + 1;
      TriedContains(r, e);
    }
  }

  /** The least range is the one at the first exponent, and the whole space where there is none. */
  lemma LeastIsFirst(r: Range, mantissa: nat, held: Range, e: nat)
    requires r.InSpace() && IsLeast(held, r, mantissa) && FirstAt(r, mantissa, e)
    ensures Down(r.lo, e) <= Up(r.Top(), e)
    ensures held == if e < 64 then Tried(r, e) else WHOLE
  {
    hide IsLeast, NamedAt, Down, Up;
    TriedContains(r, e);
    FirstIsLeast(r, mantissa, e);
    LeastIsUnique(held, if e < 64 then Tried(r, e) else WHOLE, r, mantissa);
  }

  /** A base on twice the granule, or a length of no more granules than the mantissa counts. */
  predicate IsRoomy(r: Range, mantissa: nat, n: nat) {
    IsMultiple(r.lo, n + 1) || r.ext <= Shl(Pow2(mantissa) - 1, n)
  }

  /** The exponent at which such a range is named. */
  function NamingExponent(r: Range, mantissa: nat, n: nat): nat {
    if r.ext <= Shl(Pow2(mantissa) - 1, n) then n else n + 1
  }

  /** It is the first, where there is a first. */
  lemma NamedFirst(r: Range, mantissa: nat, e: nat, n: nat)
    requires r.InSpace() && mantissa >= 1 && IsExponent(r.ext, mantissa, n) && IsMultiple(r.lo, n)
    requires IsRoomy(r, mantissa, n) && FirstAt(r, mantissa, e)
    ensures var k := NamingExponent(r, mantissa, n);
      e < 64 <==> k < 64 && Raisable(r.Top(), k)
  {
    hide IsMultiple, NamedAt, FirstAt, Down, Up, Shl, Pow2, Shr, Raisable, IsExponent;
    var k := NamingExponent(r, mantissa, n);
    LengthOfExponent(r.ext, mantissa, n);
    if e < 64 {
      if n < k {
        LongIsNamedWider(r, mantissa, e, n);
        AlignedExponent(r, mantissa, e, n);
      } else {
        ShortIsNamedThere(r, mantissa, e, n);
        if n > 0 { LongIsNamedWider(r, mantissa, e, n - 1); }
      }
      RaisableWhereNamed(r, mantissa, e);
    } else if k < 64 && Raisable(r.Top(), k) {
      if n < k { LongIsNamed(r, mantissa, n); } else { ShortIsNamed(r, mantissa, n); }
      NoneIsNamed(r, mantissa, e, k);
    }
  }

  lemma LengthOfExponent(size: nat, mantissa: nat, n: nat)
    requires IsExponent(size, mantissa, n)
    ensures size < Shl(Pow2(mantissa), n)
    ensures n > 0 ==> 2 * size >= Shl(Pow2(mantissa), n) && size > Shl(Pow2(mantissa) - 1, n - 1)
  {
    LengthInGranules(size, mantissa, n);
    if n > 0 {
      hide Pow2, Shl;
      HalfCounted(size, Pow2(mantissa), n - 1);
    }
  }

  lemma HalfCounted(size: nat, m: nat, n: nat)
    requires m > 0 && Shr(size, n) >= m
    ensures size > Shl(m - 1, n)
  {
    DivBounds(size, Pow2(n));
    MulMono(m, size / Pow2(n), Pow2(n));
    Distribute(m - 1, 1, Pow2(n));
  }

  lemma RaisableWhereNamed(r: Range, mantissa: nat, e: nat)
    requires e < 64 && r.InSpace() && FirstAt(r, mantissa, e)
    ensures Raisable(r.Top(), e)
  {
    hide Down, Up, NamedAt;
    TriedIsNamed(r, mantissa, e);
  }

  lemma NoneIsNamed(r: Range, mantissa: nat, e: nat, k: nat)
    requires k < e && FirstAt(r, mantissa, e)
    ensures Down(r.lo, k) <= Up(r.Top(), k) && !NamedAt(Tried(r, k), mantissa, k)
  {
  }

  /** A range that is not roomy is less than half the space, so the whole of it is too much. */
  lemma CrampedIsSmall(r: Range, mantissa: nat, n: nat)
    requires r.InSpace() && mantissa >= 1 && IsExponent(r.ext, mantissa, n) && IsMultiple(r.lo, n)
    requires !IsRoomy(r, mantissa, n)
    ensures 2 * r.ext < SPACE
  {
    hide IsMultiple, Down, Shl, Pow2, IsExponent;
    LengthOfExponent(r.ext, mantissa, n);
    OddGranule(r.lo, n);
    ShlTwoMore(Pow2(mantissa), n);
    LengthOf(r);
    HalfSpace(mantissa + n);
    ShlOfPower(mantissa, n);
  }

  lemma ShlOfPower(m: nat, n: nat)
    ensures Shl(Pow2(m), n) == Pow2(m + n)
  {
    Pow2Add(m, n);
  }

  lemma HalfSpace(n: nat)
    ensures Pow2(n) < SPACE ==> 2 * Pow2(n) <= SPACE
  {
    Pow2Words();
    if n >= 64 { Pow2Mono(64, n); } else { Pow2Mono(n, 64); }
  }

  lemma WholeIsTooMuch(ext: nat, m: nat)
    requires m >= 2 && 2 * ext < SPACE
    ensures Times(SPACE - 1 - ext, m) >= 2 * ext
  {
    MulMono(2, m, SPACE - 1 - ext);
  }

  /** With its base on the granule its length needs, a range is widened by less than two parts in two to the mantissa
    * exactly where it is roomy, and there is room in the space to name it or the whole space is itself no more.
    */
  lemma AlignedSlackDecided(r: Range, mantissa: nat, n: nat, held: Range)
    requires r.InSpace() && r.ext > 0 && mantissa >= 1 && IsExponent(r.ext, mantissa, n)
    requires IsMultiple(r.lo, n) && IsLeast(held, r, mantissa)
    ensures var k := NamingExponent(r, mantissa, n);
      Wider(held, r) * Pow2(mantissa) < 2 * r.ext
      <==> && IsRoomy(r, mantissa, n)
           && ((k < 64 && Raisable(r.Top(), k)) || Times(SPACE - 1 - r.ext, Pow2(mantissa)) < 2 * r.ext)
  {
    hide *;
    var e := FirstExponent(r, mantissa);
    LeastIsFirst(r, mantissa, held, e);
    if e < 64 {
      NamedDecided(r, mantissa, e, n);
    } else {
      WholeDecided(r, mantissa, e, n);
    }
  }

  lemma NamedDecided(r: Range, mantissa: nat, e: nat, n: nat)
    requires r.InSpace() && r.ext > 0 && mantissa >= 1 && IsExponent(r.ext, mantissa, n)
    requires IsMultiple(r.lo, n) && e < 64 && FirstAt(r, mantissa, e)
    ensures Down(r.lo, e) <= Up(r.Top(), e)
    ensures Wider(Tried(r, e), r) * Pow2(mantissa) < 2 * r.ext <==> IsRoomy(r, mantissa, n)
    ensures var k := NamingExponent(r, mantissa, n);
      IsRoomy(r, mantissa, n) ==> k < 64 && Raisable(r.Top(), k)
  {
    AlignedSlackExactly(r, mantissa, e, n);
    hide *;
    if IsRoomy(r, mantissa, n) { NamedFirst(r, mantissa, e, n); }
  }

  lemma TwoOrMore(mantissa: nat)
    requires mantissa >= 1
    ensures Pow2(mantissa) >= 2
  {
  }

  lemma WholeDecided(r: Range, mantissa: nat, e: nat, n: nat)
    requires r.InSpace() && r.ext > 0 && mantissa >= 1 && IsExponent(r.ext, mantissa, n)
    requires IsMultiple(r.lo, n) && e >= 64 && FirstAt(r, mantissa, e)
    ensures Wider(WHOLE, r) * Pow2(mantissa) == Times(SPACE - 1 - r.ext, Pow2(mantissa))
    ensures var k := NamingExponent(r, mantissa, n);
      IsRoomy(r, mantissa, n) ==> !(k < 64 && Raisable(r.Top(), k))
    ensures !IsRoomy(r, mantissa, n) ==> Times(SPACE - 1 - r.ext, Pow2(mantissa)) >= 2 * r.ext
  {
    hide IsMultiple, FirstAt, Shl, Pow2, Raisable, IsExponent, IsRoomy;
    TwoOrMore(mantissa);
    if IsRoomy(r, mantissa, n) {
      NamedFirst(r, mantissa, e, n);
    } else {
      CrampedIsSmall(r, mantissa, n);
      WholeIsTooMuch(r.ext, Pow2(mantissa));
    }
  }

  /** A mantissa of no bits names nothing that is not empty, so that its answer is always the whole space. */
  lemma NoMantissaIsWhole(r: Range, held: Range)
    requires r.ext > 0 && IsLeast(held, r, 0)
    ensures held == WHOLE
  {
    assert Pow2(0) == 1 && held.ext > 0;
    forall e: nat
      ensures !NamedAt(held, 0, e)
    {
      assert Shl(0, e) == 0;
    }
  }

  /** So on the granule alone it is not enough: two bits of mantissa, a base of two, seven bytes. */
  lemma AlignmentIsNeeded(r: Range, held: Range)
    requires r == Range(2, 7) && IsLeast(held, r, 2)
    ensures IsMultiple(r.lo, 1) && IsExponent(r.ext, 2, 1)
    ensures held == Range(0, 12) && Wider(held, r) * Pow2(2) >= 2 * r.ext
  {
    hide IsLeast, FirstAt, NamedAt, Down, Up, Tried, Pow2;
    SmallPowers();
    SmallNeeds(r, 1, 2, 4);
    SmallTried(r, 1, 2, 4);
    SmallLeast(r, held);
    assert Wider(held, r) * 4 >= 2 * r.ext;
  }

  lemma SmallPowers()
    ensures Pow2(0) == 1 && Pow2(1) == 2 && Pow2(2) == 4 && Pow2(3) == 8
  {
  }

  lemma SmallNeeds(r: Range, one: nat, two: nat, four: nat)
    requires r == Range(2, 7) && one == 1 == Pow2(0) && two == 2 == Pow2(1) && four == 4 == Pow2(2)
    ensures IsMultiple(r.lo, 1) && Shr(r.ext, 1) < four && Shr(r.ext, 0) >= four
  {
    hide Pow2;
  }

  lemma SmallLeast(r: Range, held: Range)
    requires r.InSpace() && IsLeast(held, r, 2) && FirstAt(r, 2, 2)
    ensures Down(r.lo, 2) <= Up(r.Top(), 2) && held == Tried(r, 2)
  {
    TriedContains(r, 2);
    hide IsLeast, Down, Up, NamedAt, Pow2, Tried;
    FirstIsLeast(r, 2, 2);
    LeastIsUnique(held, Tried(r, 2), r, 2);
  }

  lemma SmallTried(r: Range, one: nat, two: nat, four: nat)
    requires r == Range(2, 7) && one == 1 == Pow2(0) && two == 2 == Pow2(1) && four == 4 == Pow2(2)
    ensures FirstAt(r, 2, 2) && Tried(r, 2) == Range(0, 12)
  {
    hide Down, Up, NamedAt, Pow2, Tried;
    TriedAt(r, 2, 2, four, four);
    forall e': nat | e' < 2
      ensures Down(r.lo, e') <= Up(r.Top(), e') && !NamedAt(Tried(r, e'), 2, e')
    {
      TriedAt(r, 2, e', if e' == 0 then one else two, four);
    }
  }

  /** And twice the granule is not enough where the next granule leaves the space: fifteen bytes at its end, which
    * two bits of mantissa cannot name.
    */
  lemma RoomIsNeeded(r: Range, held: Range)
    requires r == Range(0xFFFF_FFFF_FFFF_FFF0, 15) && IsLeast(held, r, 2)
    ensures IsExponent(r.ext, 2, 2) && IsMultiple(r.lo, 3)
    ensures Wider(held, r) * Pow2(2) >= 2 * r.ext
  {
    hide IsLeast, Pow2, Raisable, IsMultiple, Shl;
    SmallPowers();
    EndOfSpace(r, 2, 4, 8);
    AlignedSlackDecided(r, 2, 2, held);
  }

  lemma EndOfSpace(r: Range, two: nat, four: nat, eight: nat)
    requires r == Range(0xFFFF_FFFF_FFFF_FFF0, 15)
    requires two == 2 == Pow2(1) && four == 4 == Pow2(2) && eight == 8 == Pow2(3)
    ensures r.InSpace() && IsExponent(r.ext, 2, 2) && IsMultiple(r.lo, 2) && IsMultiple(r.lo, 3)
    ensures NamingExponent(r, 2, 2) == 3 && !Raisable(r.Top(), 3)
    ensures Times(SPACE - 1 - r.ext, four) >= 2 * r.ext
  {
    hide Pow2;
  }
}
