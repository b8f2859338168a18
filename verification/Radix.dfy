/** Numbers as digit sequences, most significant digit first, in any base. */
module Radix {
  import opened Numbers

  function Power(b: nat, n: nat): (r: nat)
    ensures b > 0 ==> r > 0
  {
    if n == 0 then 1 else
      var p := Power(b, n - 1);
      MulPositive(b, p);
      b * p
  }

  lemma MulPositive(x: nat, y: nat)
    ensures x > 0 && y > 0 ==> x * y > 0
    ensures x * y >= 0
  {
  }

  lemma {:induction false} PowerAdd(b: nat, m: nat, n: nat)
    ensures Power(b, m + n) == Power(b, m) * Power(b, n)
  {
    if m > 0 {
      PowerAdd(b, m - 1, n);
      Associate(b, Power(b, m - 1), Power(b, n));
    }
  }

  lemma {:induction false} PowerMul(b: nat, m: nat, n: nat)
    ensures Power(b, m * n) == Power(Power(b, m), n)
  {
    if n == 0 {
      assert m * 0 == 0;
    } else {
      PowerMul(b, m, n - 1);
      assert m * n == m + m * (n - 1);
      PowerAdd(b, m, m * (n - 1));
    }
  }

  lemma {:induction false} PowerMonotone(b: nat, m: nat, n: nat)
    requires b > 0 && m <= n
    ensures Power(b, m) <= Power(b, n)
  {
    if m < n {
      PowerMonotone(b, m, n - 1);
      MulMonotone(1, b, Power(b, n - 1));
    }
  }

  lemma {:induction false} BaseMonotone(a: nat, b: nat, n: nat)
    requires a <= b
    ensures Power(a, n) <= Power(b, n)
  {
    if n > 0 {
      BaseMonotone(a, b, n - 1);
      MulMonotone(Power(a, n - 1), Power(b, n - 1), a);
      MulMonotone(a, b, Power(b, n - 1));
    }
  }

  lemma {:induction false} BaseStrict(a: nat, b: nat, n: nat)
    requires a < b && n > 0
    ensures Power(a, n) < Power(b, n)
  {
    if n == 1 {
      assert Power(a, 1) == a * Power(a, 0) && Power(b, 1) == b * Power(b, 0);
    } else {
      BaseStrict(a, b, n - 1);
      MulMonotone(Power(a, n - 1), Power(b, n - 1), a);
      MulMonotone(a + 1, b, Power(b, n - 1));
      assert (a + 1) * Power(b, n - 1) == a * Power(b, n - 1) + Power(b, n - 1);
    }
  }

  // ---------------------------------------------------------------- values

  predicate Digits(s: seq<nat>, b: nat) {
    forall k :: 0 <= k < |s| ==> s[k] < b
  }

  function Num(s: seq<nat>, b: nat): (r: nat) {
    if s == [] then 0 else
      MulPositive(Num(s[..|s| - 1], b), b);
      Num(s[..|s| - 1], b) * b + s[|s| - 1]
  }

  lemma {:induction false} NumSnoc(s: seq<nat>, x: nat, b: nat)
    ensures Num(s + [x], b) == Num(s, b) * b + x
  {
    assert (s + [x])[..|s|] == s;
  }

  lemma {:induction false} NumBound(s: seq<nat>, b: nat)
    requires Digits(s, b)
    ensures Num(s, b) < Power(b, |s|)
  {
    if s != [] {
      var n := |s| - 1;
      NumBound(s[..n], b);
      MulMonotone(Num(s[..n], b) + 1, Power(b, n), b);
      assert (Num(s[..n], b) + 1) * b == Num(s[..n], b) * b + b;
      assert Power(b, n) * b == b * Power(b, n);
    }
  }

  lemma {:induction false} NumCons(x: nat, s: seq<nat>, b: nat)
    ensures Num([x] + s, b) == x * Power(b, |s|) + Num(s, b)
  {
    if s == [] {
      assert [x] + s == [] + [x];
      NumSnoc([], x, b);
    } else {
      var n := |s| - 1;
      NumCons(x, s[..n], b);
      assert [x] + s == ([x] + s[..n]) + [s[n]];
      NumSnoc([x] + s[..n], s[n], b);
      assert (x * Power(b, n) + Num(s[..n], b)) * b == x * (b * Power(b, n)) + Num(s[..n], b) * b;
    }
  }

  lemma {:induction false} NumLeadingZeros(z: seq<nat>, s: seq<nat>, b: nat)
    requires forall k :: 0 <= k < |z| ==> z[k] == 0
    ensures Num(z + s, b) == Num(s, b)
  {
    if z == [] {
      assert z + s == s;
    } else {
      NumLeadingZeros(z[1..], s, b);
      assert z + s == [0] + (z[1..] + s);
      NumCons(0, z[1..] + s, b);
    }
  }

  // ---------------------------------------------------------------- the shortest digits

  function Shortest(n: nat, b: nat): seq<nat>
    requires b >= 2
    decreases n
  {
    if n == 0 then [] else
      Smaller(n, b);
      Shortest(n / b, b) + [n % b]
  }

  lemma Smaller(n: nat, b: nat)
    requires n > 0 && b >= 2
    ensures 0 <= n / b < n && 0 <= n % b < b && n == (n / b) * b + n % b
  {
    var q := n / b;
    assert n == q * b + n % b;
    if q < 0 { MulMonotone(q, -1, b); } else { MulMonotone(2, b, q); }
  }

  lemma {:induction false} ShortestIs(n: nat, b: nat)
    requires b >= 2
    ensures Num(Shortest(n, b), b) == n && Digits(Shortest(n, b), b)
    ensures Shortest(n, b) != [] ==> Shortest(n, b)[0] != 0
    decreases n
  {
    if n > 0 {
      Smaller(n, b);
      ShortestIs(n / b, b);
      NumSnoc(Shortest(n / b, b), n % b, b);
    }
  }

  /** Digits without a leading zero are the shortest. */
  lemma {:induction false} ShortestUnique(s: seq<nat>, b: nat)
    requires b >= 2 && Digits(s, b) && (s != [] ==> s[0] != 0)
    ensures Shortest(Num(s, b), b) == s
  {
    if s != [] {
      var n := |s| - 1;
      ShortestUnique(s[..n], b);
      MulPositive(Num(s[..n], b), b);
      ModIs(Num(s[..n], b) * b + s[n], Num(s[..n], b), b, s[n]);
      if n == 0 { assert s == [s[0]]; } else { NonZero(s[..n], b); }
      NonZero(s, b);
    }
  }

  lemma {:induction false} NonZero(s: seq<nat>, b: nat)
    requires b >= 2 && s != [] && s[0] != 0
    ensures Num(s, b) > 0
  {
    assert s == [s[0]] + s[1..];
    NumCons(s[0], s[1..], b);
    MulPositive(s[0], Power(b, |s| - 1));
  }
}
