/** Powers of two and division by them, which is what a shift is. */
module Powers {

  function Pow2(n: nat): (p: nat)
    ensures p > 0
  {
    if n == 0 then 1 else 2 * Pow2(n - 1)
  }

  function Times(a: nat, b: nat): (r: nat)
    ensures r == a * b
  {
    MulMono(0, a, b);
    a * b
  }

  lemma MulAssoc(a: int, b: int, c: int)
    ensures a * b * c == a * (b * c)
  {
  }

  lemma Distribute(a: int, b: int, c: int)
    ensures (a + b) * c == a * c + b * c
    ensures (a - b) * c == a * c - b * c
  {
  }

  lemma {:induction false} Pow2Add(a: nat, b: nat)
    ensures Pow2(a + b) == Pow2(a) * Pow2(b)
  {
    if a > 0 {
      Pow2Add(a - 1, b);
      var n := a - 1 + b;
      assert a + b == n + 1;
      MulAssoc(2, Pow2(a - 1), Pow2(b));
    }
  }

  lemma Pow2Next(n: nat)
    ensures Pow2(n + 1) == 2 * Pow2(n)
  {
  }

  lemma Pow2First()
    ensures Pow2(0) == 1 && Pow2(1) == 2
  {
  }

  /** `a << k`, with nothing cut off. */
  function Shl(a: nat, k: nat): nat {
    MulMono(0, a, Pow2(k));
    a * Pow2(k)
  }

  lemma ShlTwice(a: nat, i: nat, j: nat)
    ensures Shl(Shl(a, i), j) == Shl(a, i + j)
  {
    Pow2Add(i, j);
    MulAssoc(a, Pow2(i), Pow2(j));
  }

  lemma ShlProduct(a: nat, i: nat, b: nat, j: nat)
    ensures Shl(a, i) * Shl(b, j) == Shl(a * b, i + j)
  {
    Pow2Add(i, j);
    var p, q := Pow2(i), Pow2(j);
    assert a * p * (b * q) == a * b * (p * q);
  }

  lemma ShlCancels(a: nat, b: nat, k: nat)
    requires Shl(a, k) == Shl(b, k)
    ensures a == b
  {
    MulStrict(a, b, Pow2(k));
  }

  lemma {:induction false} Pow2Mono(a: nat, b: nat)
    requires a <= b
    ensures Pow2(a) <= Pow2(b)
    ensures a < b ==> 2 * Pow2(a) <= Pow2(b)
  {
    if a < b { Pow2Mono(a, b - 1); }
  }

  /** The powers the word boundaries are made of. */
  lemma Pow2Words()
    ensures Pow2(8) == 0x100 && Pow2(16) == 0x1_0000
    ensures Pow2(32) == 0x1_0000_0000
    ensures Pow2(64) == 0x1_0000_0000_0000_0000
  {
    assert Pow2(8) == 0x100;
    Pow2Doubled(8, 0x100);
    Pow2Doubled(16, 0x1_0000);
    Pow2Doubled(32, 0x1_0000_0000);
  }

  lemma Pow2Doubled(n: nat, p: nat)
    requires Pow2(n) == p
    ensures Pow2(n + n) == p * p
  {
    Pow2Add(n, n);
  }

  lemma MulMono(a: int, b: int, c: int)
    requires a <= b && 0 <= c
    ensures a * c <= b * c && c * a <= c * b
  {
  }

  lemma MulStrict(a: int, b: int, c: int)
    requires 0 < c
    ensures a < b <==> a * c < b * c
    ensures a == b <==> a * c == b * c
    ensures a <= b <==> a * c <= b * c
  {
    if a < b { MulMono(a + 1, b, c); }
    if b < a { MulMono(b + 1, a, c); }
  }

  /** A quotient and a remainder are determined by what they add up to. */
  lemma DivModUnique(n: int, d: int, q: int, r: int)
    requires 0 < d && 0 <= r < d
    requires n == q * d + r
    ensures n / d == q && n % d == r
  {
    var q', r' := n / d, n % d;
    assert n == q' * d + r';
    assert (q - q') * d == r' - r;
    if q > q' { MulMono(1, q - q', d); }
    if q < q' { MulMono(q - q', -1, d); }
  }

  lemma DivModFacts(n: int, d: int)
    requires 0 < d
    ensures n == n / d * d + n % d && 0 <= n % d < d
  {
  }

  lemma DivBounds(n: int, d: int)
    requires 0 < d && 0 <= n
    ensures 0 <= n / d <= n && n / d * d <= n < (n / d + 1) * d
  {
    var q, r := n / d, n % d;
    assert n == q * d + r;
    if q < 0 { MulMono(q, -1, d); }
    MulMono(1, d, q);
    assert (q + 1) * d == q * d + d;
  }

  /** Dividing twice is dividing once by the product. */
  lemma DivDiv(n: int, a: int, b: int)
    requires 0 < a && 0 < b
    ensures a * b > 0
    ensures n / (a * b) == n / a / b
    ensures n % (a * b) == n / a % b * a + n % a
  {
    var q, r := n / a, n % a;
    var u, v := q / b, q % b;
    MulStrict(0, a, b);
    assert n == u * (a * b) + (v * a + r) by {
      assert n == q * a + r;
      assert q == u * b + v;
      assert (u * b + v) * a == u * (a * b) + v * a;
    }
    MulMono(v, b - 1, a);
    assert (b - 1) * a == a * b - a;
    MulMono(0, v, a);
    DivModUnique(n, a * b, u, v * a + r);
  }

  lemma DivBelow(n: nat, a: nat, b: nat)
    requires 0 < a && n < a * b
    ensures n / a < b
  {
    DivModFacts(n, a);
    if n / a >= b { MulMono(b, n / a, a); }
  }

  lemma EvenMultiple(a: int, b: int)
    requires b % 2 == 0
    ensures a * b % 2 == 0
  {
    assert a * b == a * (b / 2) * 2;
  }

  lemma ParityOfRemainder(n: int, d: int)
    requires 0 < d && d % 2 == 0
    ensures n % d % 2 == n % 2
  {
    EvenMultiple(n / d, d);
    DivModFacts(n, d);
  }

  lemma ModSmall(n: int, d: int)
    requires 0 <= n < d
    ensures n % d == n && n / d == 0
  {
    DivModUnique(n, d, 0, n);
  }
}
