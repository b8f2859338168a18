/** Powers of two, and the arithmetic and counting that several models share. */
module Numbers {
  function Pow2(n: nat): (r: nat)
    ensures r > 0
  {
    if n == 0 then 1 else 2 * Pow2(n - 1)
  }

  lemma {:induction false} Pow2Add(a: nat, b: nat)
    ensures Pow2(a + b) == Pow2(a) * Pow2(b)
  {
    if a > 0 {
      Pow2Add(a - 1, b);
      Associate(2, Pow2(a - 1), Pow2(b));
    }
  }

  lemma Associate(x: int, y: int, z: int)
    ensures x * (y * z) == (x * y) * z
  {
  }

  lemma Division(x: nat, m: nat)
    requires m > 0
    ensures x == (x / m) * m + x % m && 0 <= x % m < m && 0 <= x / m
  {
    var q := x / m;
    assert x == q * m + x % m;
    if q < 0 { MulMonotone(q, -1, m); }
  }

  lemma DivBounds(x: nat, d: nat)
    requires d > 0
    ensures (x / d) * d <= x < (x / d + 1) * d
  {
    Division(x, d);
  }

  lemma QuotientUnique(q: int, r: int, q': int, r': int, m: nat)
    requires q * m + r == q' * m + r' && 0 <= r < m && 0 <= r' < m
    ensures q == q' && r == r'
  {
    if q < q' { MulMonotone(q + 1, q', m); } else if q' < q { MulMonotone(q' + 1, q, m); }
  }

  /** Quotient and remainder are what they are called. */
  lemma ModIs(x: nat, q: nat, m: nat, r: nat)
    requires x == q * m + r && r < m
    ensures x % m == r && x / m == q
  {
    Division(x, m);
    QuotientUnique(q, r, x / m, x % m, m);
  }

  lemma QuotientIs(x: nat, q: nat, d: nat)
    requires q * d <= x < (q + 1) * d
    ensures x / d == q
  {
    assert (q + 1) * d == q * d + d;
    ModIs(x, q, d, x - q * d);
  }

  lemma TwiceMultiple(x: nat, d: nat)
    requires d > 0 && x % d == 0
    ensures (2 * x) % (2 * d) == 0
  {
    var q := x / d;
    Division(x, d);
    assert 2 * x == q * (2 * d);
    ModIs(2 * x, q, 2 * d, 0);
  }

  lemma {:induction false} Pow2Monotone(a: nat, b: nat)
    requires a <= b
    ensures Pow2(a) <= Pow2(b)
  {
    if a < b { Pow2Monotone(a, b - 1); }
  }

  lemma MulMonotone(x: int, y: int, m: nat)
    requires x <= y
    ensures x * m <= y * m
  {
    assert (y - x) * m >= 0;
  }

  lemma MulStrict(x: int, y: int, m: nat)
    requires x < y && m > 0
    ensures x * m < y * m
  {
    MulMonotone(x + 1, y, m);
    assert (x + 1) * m == x * m + m;
  }

  lemma SubsetSize<X>(a: set<X>, b: set<X>)
    requires a <= b
    ensures |a| <= |b| && (a != b ==> |a| < |b|)
  {
    assert b == a + (b - a);
    if a != b { assert b - a != {}; }
  }
}
