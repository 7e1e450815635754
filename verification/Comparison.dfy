/** The comparisons of float.c, double.c and quad.c, over any format: one comparison of two unsigned patterns, and
  * eight names for it that differ in what they answer for an operand that is not a number.
  */
module Comparison {
  import opened Rounding
  import opened Packing
  import opened Ieee

  function Compare(f: Layout, left: nat, right: nat, unordered: int): int {
    if IsNan(f, left) || IsNan(f, right) then unordered
    else
      var l, r := Magnitude(f, left), Magnitude(f, right);
      if l == 0 && r == 0 then 0
      else if Negative(f, left) != Negative(f, right) then (if Negative(f, left) then -1 else 1)
      else if l == r then 0
      else
        var ordered := if l > r then 1 else -1;
        if Negative(f, left) then -ordered else ordered
  }

  function Cmp(f: Layout, left: nat, right: nat): int { Compare(f, left, right, 1) }

  function Eq(f: Layout, left: nat, right: nat): int { Compare(f, left, right, 1) }

  function Ne(f: Layout, left: nat, right: nat): int { Compare(f, left, right, 1) }

  function Ge(f: Layout, left: nat, right: nat): int { Compare(f, left, right, -1) }

  function Gt(f: Layout, left: nat, right: nat): int { Compare(f, left, right, -1) }

  function Le(f: Layout, left: nat, right: nat): int { Compare(f, left, right, 1) }

  function Lt(f: Layout, left: nat, right: nat): int { Compare(f, left, right, 1) }

  predicate Unordered(f: Layout, left: nat, right: nat) { IsNan(f, left) || IsNan(f, right) }

  /** The sign of the answer is the sign of the true difference, an infinity being past every finite value, a
    * negative zero being a positive one, and subnormals and normals being ordered across their boundary.
    */
  lemma CompareOrdersValues(f: Layout, left: nat, right: nat, unordered: int)
    requires !Unordered(f, left, right)
    ensures Compare(f, left, right, unordered) < 0 <==> SignedValue(f, left) < SignedValue(f, right)
    ensures Compare(f, left, right, unordered) == 0 <==> SignedValue(f, left) == SignedValue(f, right)
    ensures Compare(f, left, right, unordered) > 0 <==> SignedValue(f, left) > SignedValue(f, right)
  {
    var l, r := Magnitude(f, left), Magnitude(f, right);
    ValueMono(f, l, r);
    ValueMono(f, r, l);
    ValueMono(f, 0, l);
    ValueMono(f, 0, r);
    ValueMono(f, l, 0);
    ValueMono(f, r, 0);
    ValueOf(f, 0, 0);
    hide Value;
  }

  /** Each routine's answer for an unordered pair makes its caller's test come out as section 5.11 of IEEE
    * 754-2019 requires: unequal, and neither ordered way.
    */
  lemma PredicatesMeetTheStandard(f: Layout, left: nat, right: nat)
    ensures var ordered, l, r := !Unordered(f, left, right), SignedValue(f, left), SignedValue(f, right);
      && (Eq(f, left, right) == 0 <==> ordered && l == r)
      && (Ne(f, left, right) != 0 <==> !(ordered && l == r))
      && (Ge(f, left, right) >= 0 <==> ordered && l >= r)
      && (Gt(f, left, right) > 0 <==> ordered && l > r)
      && (Le(f, left, right) <= 0 <==> ordered && l <= r)
      && (Lt(f, left, right) < 0 <==> ordered && l < r)
      && (Cmp(f, left, right) > 0 <==> !ordered || l > r)
      && (Cmp(f, left, right) < 0 <==> ordered && l < r)
  {
    hide SignedValue;
    if !Unordered(f, left, right) {
      CompareOrdersValues(f, left, right, 1);
      CompareOrdersValues(f, left, right, -1);
    }
  }
}
