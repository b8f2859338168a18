/** Numbers in base 2^32, least significant limb first, and the powers and bit operations they need. */
module Limbs {
  import opened Numbers

  // ---------------------------------------------------------------- powers

  /** 2^32 to a power. */
  function Pow(n: nat): (r: nat)
    ensures r > 0
  {
    if n == 0 then 1 else 0x1_0000_0000 * Pow(n - 1)
  }

  lemma {:induction false} PowAdd(a: nat, b: nat)
    ensures Pow(a + b) == Pow(a) * Pow(b)
  {
    if a > 0 {
      PowAdd(a - 1, b);
      assert 0x1_0000_0000 * (Pow(a - 1) * Pow(b)) == (0x1_0000_0000 * Pow(a - 1)) * Pow(b);
    }
  }

  lemma Pow2Of32()
    ensures Pow2(32) == 0x1_0000_0000
  {
    assert Pow2(8) == 256;
    Pow2Add(8, 8);
    Pow2Add(16, 16);
  }

  lemma {:induction false} PowIsPow2(n: nat)
    ensures Pow(n) == Pow2(32 * n)
  {
    if n > 0 {
      PowIsPow2(n - 1);
      Pow2Of32();
      Pow2Add(32, 32 * (n - 1));
    }
  }

  // ---------------------------------------------------------------- values

  predicate Lims(s: seq<nat>) {
    forall k :: 0 <= k < |s| ==> s[k] < 0x1_0000_0000
  }

  function Value(s: seq<nat>): nat {
    if s == [] then 0 else Value(s[..|s| - 1]) + s[|s| - 1] * Pow(|s| - 1)
  }

  lemma {:induction false} ValueSnoc(s: seq<nat>, x: nat)
    ensures Value(s + [x]) == Value(s) + x * Pow(|s|)
  {
    assert (s + [x])[..|s|] == s;
  }

  lemma {:induction false} ValuePrefix(s: seq<nat>, i: nat)
    requires i < |s|
    ensures Value(s[..i + 1]) == Value(s[..i]) + s[i] * Pow(i)
  {
    assert s[..i + 1] == s[..i] + [s[i]];
    ValueSnoc(s[..i], s[i]);
  }

  lemma {:induction false} ValueBound(s: seq<nat>)
    requires Lims(s)
    ensures Value(s) < Pow(|s|)
  {
    if s != [] {
      var n := |s| - 1;
      ValueBound(s[..n]);
      TopBound(s[n], Pow(n));
    }
  }

  lemma TopBound(x: nat, p: nat)
    requires x < 0x1_0000_0000
    ensures x * p + p <= 0x1_0000_0000 * p
  {
    assert (x + 1) * p <= 0x1_0000_0000 * p;
  }

  lemma {:induction false} ValueAppend(s: seq<nat>, t: seq<nat>)
    ensures Value(s + t) == Value(s) + Pow(|s|) * Value(t)
  {
    if t == [] {
      assert s + t == s;
    } else {
      var n := |t| - 1;
      ValueAppend(s, t[..n]);
      assert s + t == (s + t[..n]) + [t[n]];
      ValueSnoc(s + t[..n], t[n]);
      assert t == t[..n] + [t[n]];
      ValueSnoc(t[..n], t[n]);
      PowAdd(|s|, n);
      Distribute(Pow(|s|), Value(t[..n]), t[n], Pow(n));
    }
  }

  lemma Distribute(p: nat, v: nat, x: nat, q: nat)
    ensures p * (v + x * q) == p * v + x * (p * q)
  {
  }

  lemma ValueUpdate(s: seq<nat>, k: nat, x: nat)
    requires k < |s|
    ensures Value(s[k := x]) + s[k] * Pow(k) == Value(s) + x * Pow(k)
  {
    var rest := s[k + 1..];
    assert s == s[..k] + [s[k]] + rest && s[k := x] == s[..k] + [x] + rest;
    ValueAppend(s[..k] + [s[k]], rest);
    ValueAppend(s[..k] + [x], rest);
    ValueSnoc(s[..k], s[k]);
    ValueSnoc(s[..k], x);
  }

  lemma {:induction false} ValueZeros(s: seq<nat>)
    requires forall k :: 0 <= k < |s| ==> s[k] == 0
    ensures Value(s) == 0
  {
    if s != [] { ValueZeros(s[..|s| - 1]); }
  }

  lemma ValueCons(x: nat, s: seq<nat>)
    ensures Value([x] + s) == x + 0x1_0000_0000 * Value(s)
  {
    ValueAppend([x], s);
    ValueSnoc([], x);
    assert [] + [x] == [x];
    assert Pow(1) == 0x1_0000_0000 * Pow(0);
  }

  // ---------------------------------------------------------------- carries

  /** Splitting a sum into a limb and a carry. */
  lemma CarryStep(n: nat, p: nat)
    ensures (n % 0x1_0000_0000) * p + (n / 0x1_0000_0000) * (0x1_0000_0000 * p) == n * p
  {
    var lo, hi := n % 0x1_0000_0000, n / 0x1_0000_0000;
    assert n == lo + hi * 0x1_0000_0000;
    assert lo * p + (hi * 0x1_0000_0000) * p == (lo + hi * 0x1_0000_0000) * p;
  }

  lemma Product64(a: nat, b: nat, c: nat, d: nat)
    requires a < 0x1_0000_0000 && b < 0x1_0000_0000 && c < 0x1_0000_0000 && d < 0x1_0000_0000
    ensures a * b + c + d < 0x1_0000_0000_0000_0000
  {
    MulMonotone(a, 0xFFFF_FFFF, b);
  }

  // ---------------------------------------------------------------- bits of a limb

  /** Bitwise or. */
  function Or(x: nat, y: nat): nat {
    if x == 0 then y else if y == 0 then x
    else (if x % 2 == 1 || y % 2 == 1 then 1 else 0) + 2 * Or(x / 2, y / 2)
  }

  /** Where one number ends before the other begins, or adds. */
  lemma {:induction false} OrAdds(x: nat, y: nat, s: nat)
    requires x < Pow2(s) && y % Pow2(s) == 0
    ensures Or(x, y) == x + y && Or(y, x) == x + y
  {
    if x != 0 && y != 0 {
      HalfMultiple(y, s);
      OrAdds(x / 2, y / 2, s - 1);
    }
  }

  lemma HalfMultiple(y: nat, s: nat)
    requires s > 0 && y % Pow2(s) == 0
    ensures y % 2 == 0 && (y / 2) % Pow2(s - 1) == 0
  {
    var p := Pow2(s - 1);
    Division(y, 2 * p);
    var q := y / (2 * p);
    assert q * (2 * p) == 2 * (q * p);
    ModIs(y / 2, q, p, 0);
  }

  // ---------------------------------------------------------------- shifting left

  /** What a limb shifted left by `s` passes on to the next limb. */
  function High(x: nat, s: nat): nat
    requires s < 32
  {
    if s == 0 then 0 else
      Division(x, Pow2(32 - s));
      x / Pow2(32 - s)
  }

  /** What stays of a limb shifted left by `s`. */
  function Low(x: nat, s: nat): nat { (x * Pow2(s)) % 0x1_0000_0000 }

  lemma SplitLimb(x: nat, p: nat, q: nat)
    requires x < 0x1_0000_0000 == p * q && p > 0 && q > 0
    ensures x * p == (x % q) * p + (x / q) * 0x1_0000_0000 && x / q < p && (x % q) * p < 0x1_0000_0000
  {
    Division(x, q);
    var h, l := x / q, x % q;
    Regroup(h, l, p, q);
    MulMonotone(l + 1, q, p);
    if h >= p { MulMonotone(p, h, q); }
  }

  lemma Regroup(h: nat, l: nat, p: nat, q: nat)
    ensures (h * q + l) * p == h * (p * q) + l * p && (l + 1) * p == l * p + p
  {
  }

  lemma Pow2Split(s: nat)
    requires s <= 32
    ensures Pow2(s) * Pow2(32 - s) == 0x1_0000_0000
  {
    Pow2Of32();
    Pow2Add(s, 32 - s);
  }

  lemma ShiftLimb(x: nat, s: nat)
    requires x < 0x1_0000_0000 && s < 32
    ensures Low(x, s) + High(x, s) * 0x1_0000_0000 == x * Pow2(s)
    ensures High(x, s) < Pow2(s) && Low(x, s) < 0x1_0000_0000 && Low(x, s) % Pow2(s) == 0
  {
    hide Pow2;
    var p, q := Pow2(s), Pow2(32 - s);
    Pow2Split(s);
    if s == 0 {
      assert p == 1 by { Pow2Zero(); }
    } else {
      SplitLimb(x, p, q);
      Division(x, q);
      LowIs(x, p, q);
    }
  }

  lemma Pow2Zero()
    ensures Pow2(0) == 1
  {
  }

  lemma LowIs(x: nat, p: nat, q: nat)
    requires p > 0 && q > 0 && x * p == (x % q) * p + (x / q) * 0x1_0000_0000 && (x % q) * p < 0x1_0000_0000
    ensures (x * p) % 0x1_0000_0000 == (x % q) * p && ((x % q) * p) % p == 0
  {
    Division(x, q);
    ModIs(x * p, x / q, 0x1_0000_0000, (x % q) * p);
    ModIs((x % q) * p, x % q, p, 0);
  }

  /** All limbs shifted left by fewer than 32 bits; the last carry is lost. */
  function Bits(a: seq<nat>, s: nat): (r: seq<nat>)
    requires s < 32
    ensures |r| == |a|
  {
    if a == [] then [] else
      var n := |a| - 1;
      Bits(a[..n], s) + [(if n == 0 then 0 else High(a[n - 1], s)) + Low(a[n], s)]
  }

  function Top(a: seq<nat>, s: nat): nat
    requires s < 32
  {
    if a == [] then 0 else High(a[|a| - 1], s)
  }

  lemma {:induction false} BitsAt(a: seq<nat>, s: nat, j: nat)
    requires s < 32 && j < |a|
    ensures Bits(a, s)[j] == Top(a[..j], s) + Low(a[j], s)
  {
    if j < |a| - 1 {
      BitsAt(a[..|a| - 1], s, j);
      assert a[..|a| - 1][..j] == a[..j];
    }
  }

  lemma {:induction false} BitsPrefix(a: seq<nat>, s: nat, m: nat)
    requires s < 32 && m <= |a|
    ensures Bits(a, s)[..m] == Bits(a[..m], s)
  {
    forall j | 0 <= j < m ensures Bits(a, s)[j] == Bits(a[..m], s)[j] {
      BitsAt(a, s, j);
      BitsAt(a[..m], s, j);
      assert a[..m][..j] == a[..j];
    }
  }

  lemma {:induction false} BitsValue(a: seq<nat>, s: nat)
    requires s < 32 && Lims(a)
    ensures Value(Bits(a, s)) + Top(a, s) * Pow(|a|) == Value(a) * Pow2(s)
  {
    if a != [] {
      hide Pow2, Low, High;
      var n := |a| - 1;
      var x, front := a[n], a[..n];
      BitsValue(front, s);
      ShiftLimb(x, s);
      ValueSnoc(Bits(front, s), Top(front, s) + Low(x, s));
      assert Bits(a, s) == Bits(front, s) + [Top(front, s) + Low(x, s)];
      BitsAlgebra(Value(Bits(front, s)), Top(front, s), Low(x, s), High(x, s), x, Pow2(s), Pow(n), Value(front));
    }
  }

  lemma BitsAlgebra(vb: nat, top: nat, lo: nat, hi: nat, x: nat, p: nat, w: nat, v: nat)
    requires vb + top * w == v * p && lo + hi * 0x1_0000_0000 == x * p
    ensures vb + (top + lo) * w + hi * (0x1_0000_0000 * w) == (v + x * w) * p
  {
    assert (lo + hi * 0x1_0000_0000) * w == (x * p) * w;
    assert (top + lo) * w == top * w + lo * w;
    assert hi * (0x1_0000_0000 * w) == (hi * 0x1_0000_0000) * w;
    assert (v + x * w) * p == v * p + (x * p) * w;
  }

  function Zeros(n: nat): (r: seq<nat>)
    ensures |r| == n && forall k :: 0 <= k < n ==> r[k] == 0
  {
    seq(n, _ => 0)
  }

  /** All limbs shifted left, in the same number of limbs. */
  function Shl(a: seq<nat>, shift: nat): (r: seq<nat>)
    ensures |r| == |a|
  {
    var k := shift / 32;
    if k >= |a| then Zeros(|a|) else Zeros(k) + Bits(a, shift % 32)[..|a| - k]
  }

  lemma {:induction false} ShlValue(a: seq<nat>, shift: nat)
    requires Lims(a)
    ensures Value(Shl(a, shift)) == (Value(a) * Pow2(shift)) % Pow(|a|)
    ensures Lims(Shl(a, shift))
  {
    hide Value, Pow, Pow2, Bits, Top, Lims;
    ShlLims(a, shift);
    ValueBound(Shl(a, shift));
    ShiftPower(shift);
    if shift / 32 >= |a| { ShlOut(a, shift); } else { ShlIn(a, shift); }
  }

  lemma ShiftPower(shift: nat)
    ensures Pow2(shift) == Pow(shift / 32) * Pow2(shift % 32)
  {
    hide Pow, Pow2;
    var k, s := shift / 32, shift % 32;
    PowIsPow2(k);
    Pow2Add(32 * k, s);
  }

  lemma {:induction false} ShlOut(a: seq<nat>, shift: nat)
    requires shift / 32 >= |a| && Pow2(shift) == Pow(shift / 32) * Pow2(shift % 32)
    ensures Value(Shl(a, shift)) == (Value(a) * Pow2(shift)) % Pow(|a|)
  {
    hide Value, Pow, Pow2;
    var n, k := |a|, shift / 32;
    ValueZeros(Zeros(n));
    PowAdd(n, k - n);
    ShiftedOut(Value(a), Pow2(shift % 32), Pow(n), Pow(k - n));
  }

  lemma {:induction false} ShlIn(a: seq<nat>, shift: nat)
    requires Lims(a) && shift / 32 < |a| && Pow2(shift) == Pow(shift / 32) * Pow2(shift % 32)
    requires Value(Shl(a, shift)) < Pow(|a|)
    ensures Value(Shl(a, shift)) == (Value(a) * Pow2(shift)) % Pow(|a|)
  {
    hide Value, Pow, Pow2, Bits, Top;
    var n, k, s := |a|, shift / 32, shift % 32;
    var m := n - k;
    var lo, hi := a[..m], a[m..];
    BitsPrefix(a, s, m);
    BitsValue(lo, s);
    ValueAppend(Zeros(k), Bits(lo, s));
    ValueZeros(Zeros(k));
    assert a == lo + hi;
    ValueAppend(lo, hi);
    PowAdd(k, m);
    ShlAlgebra(Value(Bits(lo, s)), Top(lo, s), Value(lo), Value(hi), Pow2(s), Pow(k), Pow(m));
    ModIs(Value(a) * Pow2(shift), Top(lo, s) + Value(hi) * Pow2(s), Pow(n), Value(Shl(a, shift)));
  }

  lemma ShiftedOut(v: nat, p: nat, w: nat, u: nat)
    requires w > 0
    ensures (v * ((w * u) * p)) % w == 0
  {
    assert v * ((w * u) * p) == (v * u * p) * w;
    ModIs(v * ((w * u) * p), v * u * p, w, 0);
  }

  lemma ShlAlgebra(vb: nat, top: nat, lo: nat, hi: nat, p: nat, wk: nat, wm: nat)
    requires vb + top * wm == lo * p
    ensures (lo + wm * hi) * (wk * p) == (top + hi * p) * (wk * wm) + wk * vb
  {
    assert (lo + wm * hi) * (wk * p) == wk * (lo * p) + (hi * p) * (wk * wm);
    assert wk * (vb + top * wm) == wk * vb + top * (wk * wm);
  }

  lemma {:induction false} ShlLims(a: seq<nat>, shift: nat)
    requires Lims(a)
    ensures Lims(Shl(a, shift))
  {
    var k, s := shift / 32, shift % 32;
    forall j | 0 <= j < |a| ensures Shl(a, shift)[j] < 0x1_0000_0000 {
      if k <= j { ShlAt(a, shift, j); }
    }
  }

  lemma ShlAt(a: seq<nat>, shift: nat, j: nat)
    requires Lims(a) && j < |a| && shift / 32 <= j
    ensures var i, s := j - shift / 32, shift % 32;
      && Shl(a, shift)[j] == Top(a[..i], s) + Low(a[i], s) < 0x1_0000_0000
      && Or(Top(a[..i], s), Low(a[i], s)) == Shl(a, shift)[j]
  {
    var i, s := j - shift / 32, shift % 32;
    BitsAt(a, s, i);
    ShiftLimb(a[i], s);
    if i > 0 { ShiftLimb(a[i - 1], s); }
    OrAdds(Top(a[..i], s), Low(a[i], s), s);
    LimbFits(Top(a[..i], s), Low(a[i], s), s);
  }

  lemma LimbFits(x: nat, y: nat, s: nat)
    requires s <= 32 && x < Pow2(s) && y < 0x1_0000_0000 && y % Pow2(s) == 0
    ensures x + y < 0x1_0000_0000
  {
    hide Pow2;
    Pow2Split(s);
    Fits(x, y, Pow2(s), Pow2(32 - s));
  }

  lemma Fits(x: nat, y: nat, p: nat, q: nat)
    requires p > 0 && x < p && y < p * q && y % p == 0
    ensures x + y < p * q
  {
    Division(y, p);
    var d := y / p;
    if d >= q { MulMonotone(q, d, p); }
    MulMonotone(d + 1, q, p);
    assert (d + 1) * p == d * p + p;
    assert q * p == p * q;
  }

  // ---------------------------------------------------------------- shifting right

  /** What a limb shifted right by `s` passes on to the limb below. */
  function Spill(x: nat, s: nat): nat
    requires s < 32
  {
    if s == 0 then 0 else (x * Pow2(32 - s)) % 0x1_0000_0000
  }

  function Rest(x: nat, s: nat): nat {
    Division(x, Pow2(s));
    x / Pow2(s)
  }

  lemma SpillLimb(x: nat, s: nat)
    requires x < 0x1_0000_0000 && s < 32
    ensures Spill(x, s) * Pow2(s) == (x % Pow2(s)) * 0x1_0000_0000
    ensures Spill(x, s) % Pow2(32 - s) == 0 && Spill(x, s) < 0x1_0000_0000 && Rest(x, s) < Pow2(32 - s)
  {
    hide Pow2;
    var p, q := Pow2(s), Pow2(32 - s);
    Pow2Split(s);
    Division(x, p);
    if s == 0 {
      Pow2Zero();
      Division(0, q);
      ModIs(0, 0, q, 0);
    } else {
      SplitLimb(x, q, p);
      LowIs(x, q, p);
      assert ((x % p) * q) * p == (x % p) * (p * q);
    }
  }

  /** All limbs shifted right by fewer than 32 bits. */
  function Down(a: seq<nat>, s: nat): (r: seq<nat>)
    requires s < 32
    ensures |r| == |a|
  {
    if a == [] then [] else
      [Rest(a[0], s) + if |a| == 1 then 0 else Spill(a[1], s)] + Down(a[1..], s)
  }

  lemma {:induction false} DownAt(a: seq<nat>, s: nat, j: nat)
    requires s < 32 && j < |a|
    ensures Down(a, s)[j] == Rest(a[j], s) + if j + 1 == |a| then 0 else Spill(a[j + 1], s)
  {
    hide Rest, Spill;
    if j > 0 { DownAt(a[1..], s, j - 1); }
  }

  lemma {:induction false} DownValue(a: seq<nat>, s: nat)
    requires s < 32 && Lims(a)
    ensures Value(a) == Pow2(s) * Value(Down(a, s)) + if a == [] then 0 else a[0] % Pow2(s)
  {
    hide Pow2, Rest, Spill, Value, Down;
    if a == [] {
      ValueZeros(a);
      ValueZeros(Down(a, s));
    } else {
      var tail := a[1..];
      DownValue(tail, s);
      DownCons(a, s);
      ValueCons(a[0], tail);
      assert a == [a[0]] + tail;
      RestIs(a[0], s);
      var left := if tail == [] then 0 else tail[0] % Pow2(s);
      DownAlgebra(a[0], a[0] % Pow2(s), Rest(a[0], s), SpillOf(tail, s), left, Pow2(s),
                  Value(Down(tail, s)), Value(tail));
    }
  }

  /** What the limb above passes down, if there is one. */
  function SpillOf(tail: seq<nat>, s: nat): nat
    requires s < 32
  {
    if tail == [] then 0 else Spill(tail[0], s)
  }

  lemma {:induction false} DownCons(a: seq<nat>, s: nat)
    requires s < 32 && a != [] && Lims(a)
    ensures Value(Down(a, s)) == Rest(a[0], s) + SpillOf(a[1..], s) + 0x1_0000_0000 * Value(Down(a[1..], s))
    ensures SpillOf(a[1..], s) * Pow2(s) == (if a[1..] == [] then 0 else a[1..][0] % Pow2(s)) * 0x1_0000_0000
  {
    hide Pow2, Rest, Spill, Value;
    ValueCons(Rest(a[0], s) + SpillOf(a[1..], s), Down(a[1..], s));
    if |a| > 1 { SpillLimb(a[1], s); }
  }

  lemma RestIs(x: nat, s: nat)
    ensures x == Rest(x, s) * Pow2(s) + x % Pow2(s) && 0 <= x % Pow2(s) < Pow2(s)
  {
    Division(x, Pow2(s));
  }

  lemma DownAlgebra(x: nat, r: nat, q: nat, spill: nat, left: nat, p: nat, vd: nat, v: nat)
    requires x == q * p + r && spill * p == left * 0x1_0000_0000 && v == p * vd + left
    ensures x + 0x1_0000_0000 * v == p * (q + spill + 0x1_0000_0000 * vd) + r
  {
    assert p * (q + spill + 0x1_0000_0000 * vd) == q * p + spill * p + 0x1_0000_0000 * (p * vd);
  }

  /** All limbs shifted right. */
  function Shr(a: seq<nat>, shift: nat): (r: seq<nat>)
    ensures |r| == |a|
  {
    var k := shift / 32;
    if k >= |a| then Zeros(|a|) else Down(a[k..], shift % 32) + Zeros(k)
  }

  lemma {:induction false} ShrValue(a: seq<nat>, shift: nat)
    requires Lims(a)
    ensures Value(Shr(a, shift)) == Value(a) / Pow2(shift)
    ensures Lims(Shr(a, shift))
  {
    hide Value, Pow, Pow2, Down, Lims;
    ShrLims(a, shift);
    ShiftPower(shift);
    if shift / 32 >= |a| { ShrOut(a, shift); } else { ShrIn(a, shift); }
  }

  lemma {:induction false} ShrOut(a: seq<nat>, shift: nat)
    requires Lims(a) && shift / 32 >= |a| && Pow2(shift) == Pow(shift / 32) * Pow2(shift % 32)
    ensures Value(Shr(a, shift)) == Value(a) / Pow2(shift)
  {
    hide Value, Pow, Pow2;
    ValueZeros(Zeros(|a|));
    ValueBound(a);
    PowMonotone(|a|, shift / 32);
    AtLeast(Pow(shift / 32), Pow2(shift % 32));
    ModIs(Value(a), 0, Pow2(shift), Value(a));
  }

  lemma {:induction false} PowMonotone(a: nat, b: nat)
    requires a <= b
    ensures Pow(a) <= Pow(b)
  {
    if a < b { PowMonotone(a, b - 1); }
  }

  lemma AtLeast(x: nat, y: nat)
    requires y > 0
    ensures x <= x * y
  {
    MulMonotone(1, y, x);
  }

  lemma {:induction false} ShrIn(a: seq<nat>, shift: nat)
    requires Lims(a) && shift / 32 < |a| && Pow2(shift) == Pow(shift / 32) * Pow2(shift % 32)
    ensures Value(Shr(a, shift)) == Value(a) / Pow2(shift)
  {
    hide Value, Pow, Pow2, Down;
    var k, s := shift / 32, shift % 32;
    var lo, hi := a[..k], a[k..];
    ValueSplit(a, k);
    ValueBound(lo);
    DownValue(hi, s);
    RestIs(hi[0], s);
    ValuePadded(Down(hi, s), k);
    ShrAlgebra(Value(lo), hi[0] % Pow2(s), Value(Down(hi, s)), Pow(k), Pow2(s));
    ModIs(Value(a), Value(Down(hi, s)), Pow2(shift), Value(lo) + Pow(k) * (hi[0] % Pow2(s)));
  }

  lemma ValueSplit(a: seq<nat>, k: nat)
    requires k <= |a|
    ensures Value(a) == Value(a[..k]) + Pow(k) * Value(a[k..])
  {
    hide Value, Pow;
    assert a == a[..k] + a[k..];
    ValueAppend(a[..k], a[k..]);
  }

  lemma ValuePadded(a: seq<nat>, k: nat)
    ensures Value(a + Zeros(k)) == Value(a)
  {
    hide Value, Pow;
    ValueAppend(a, Zeros(k));
    ValueZeros(Zeros(k));
  }

  lemma ShrAlgebra(lo: nat, r: nat, vd: nat, wk: nat, p: nat)
    requires lo < wk && r < p
    ensures lo + wk * (p * vd + r) == vd * (wk * p) + (lo + wk * r) && lo + wk * r < wk * p
  {
    MulMonotone(r + 1, p, wk);
    assert (r + 1) * wk == wk * r + wk;
    assert wk * (p * vd + r) == vd * (wk * p) + wk * r;
  }

  lemma {:induction false} ShrLims(a: seq<nat>, shift: nat)
    requires Lims(a)
    ensures Lims(Shr(a, shift))
  {
    forall j | 0 <= j < |a| ensures Shr(a, shift)[j] < 0x1_0000_0000 {
      if shift / 32 + j < |a| { ShrAt(a, shift, j); }
    }
  }

  lemma ShrAt(a: seq<nat>, shift: nat, j: nat)
    requires Lims(a) && shift / 32 + j < |a|
    ensures var i, s := j + shift / 32, shift % 32;
      var spill := if i + 1 == |a| then 0 else Spill(a[i + 1], s);
      Shr(a, shift)[j] == Rest(a[i], s) + spill < 0x1_0000_0000 && Or(Rest(a[i], s), spill) == Shr(a, shift)[j]
  {
    hide Pow2, Rest, Spill, Down, Or;
    var i, s := j + shift / 32, shift % 32;
    DownAt(a[shift / 32..], s, j);
    SpillLimb(a[i], s);
    if i + 1 < |a| {
      SpillLimb(a[i + 1], s);
      OrAdds(Rest(a[i], s), Spill(a[i + 1], s), 32 - s);
      LimbFits(Rest(a[i], s), Spill(a[i + 1], s), 32 - s);
    } else {
      OrZero(Rest(a[i], s));
      Pow2Split(s);
      MulMonotone(1, Pow2(s), Pow2(32 - s));
    }
  }

  lemma OrZero(x: nat)
    ensures Or(x, 0) == x && Or(0, x) == x
  {
  }

  // ---------------------------------------------------------------- comparing

  /** The highest limb that differs decides. */
  lemma {:induction false} CompareAt(a: seq<nat>, b: seq<nat>, i: nat)
    requires |a| == |b| && i < |a| && Lims(a) && Lims(b) && a[i] < b[i] && forall k :: i < k < |a| ==> a[k] == b[k]
    ensures Value(a) < Value(b)
  {
    hide Value, Pow;
    assert a[i + 1..] == b[i + 1..];
    assert a == a[..i + 1] + a[i + 1..] && b == b[..i + 1] + b[i + 1..];
    ValueAppend(a[..i + 1], a[i + 1..]);
    ValueAppend(b[..i + 1], b[i + 1..]);
    ValuePrefix(a, i);
    ValuePrefix(b, i);
    ValueBound(a[..i]);
    MulMonotone(a[i] + 1, b[i], Pow(i));
    assert (a[i] + 1) * Pow(i) == a[i] * Pow(i) + Pow(i);
  }

  // ---------------------------------------------------------------- complement

  function Complement(a: seq<nat>): (r: seq<nat>)
    requires Lims(a)
    ensures |r| == |a| && Lims(r)
    ensures forall k :: 0 <= k < |a| ==> r[k] == 0xFFFF_FFFF - a[k]
  {
    if a == [] then [] else Complement(a[..|a| - 1]) + [0xFFFF_FFFF - a[|a| - 1]]
  }

  lemma {:induction false} ComplementValue(a: seq<nat>)
    requires Lims(a)
    ensures Value(a) + Value(Complement(a)) == Pow(|a|) - 1
  {
    if a != [] {
      var n := |a| - 1;
      ComplementValue(a[..n]);
      ValueSnoc(Complement(a[..n]), 0xFFFF_FFFF - a[n]);
      assert a[n] * Pow(n) + (0xFFFF_FFFF - a[n]) * Pow(n) == 0xFFFF_FFFF * Pow(n);
    }
  }
}
