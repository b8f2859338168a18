/**
The compact form of difficulty targets (src/arith_uint256.cpp) and the work a block stands for (src/chain.cpp):
a byte count, a sign bit and 23 leading bits.
*/
module CompactTarget {
  import opened Numbers
  import opened Limbs
  import opened ArithUint256

  /** The number a compact form stands for, without its sign and without a limit of 256 bits. */
  function Target(nCompact: nat): nat {
    var nSize, nWord := nCompact / 0x100_0000, nCompact % 0x80_0000;
    if nSize <= 3 then Rest(nWord, 8 * (3 - nSize)) else nWord * Pow2(8 * (nSize - 3))
  }

  predicate Negative(nCompact: nat) {
    Target(nCompact) != 0 && (nCompact / 0x80_0000) % 2 == 1
  }

  lemma Powers()
    ensures Pow2(8) == 0x100 && Pow2(16) == 0x1_0000 && Pow2(24) == 0x100_0000 && Pow2(0) == 1
  {
    assert Pow2(4) == 16;
    Pow2Add(4, 4);
    Pow2Add(8, 8);
    Pow2Add(16, 8);
  }

  /** A factor below 2^23 times a power of 256 reaches 2^256 exactly in the three cases that are tested for. */
  lemma OverflowExact(nWord: nat, nSize: nat)
    requires nWord < 0x80_0000 && nSize > 3
    ensures nWord * Pow2(8 * (nSize - 3)) >= Pow(8) <==>
      nWord != 0 && (nSize > 34 || (nWord > 0xff && nSize > 33) || (nWord > 0xffff && nSize > 32))
  {
    hide Pow, Pow2;
    Powers();
    PowIsPow2(8);
    var e := 8 * (nSize - 3);
    if nSize > 34 {
      Pow2Monotone(256, e);
      if nWord > 0 { MulMonotone(1, nWord, Pow2(e)); }
    } else if nSize == 34 {
      Pow2Add(8, 248);
      Threshold(nWord, 0x100, Pow2(248));
    } else if nSize == 33 {
      Pow2Add(16, 240);
      Threshold(nWord, 0x1_0000, Pow2(240));
    } else {
      Pow2Add(24, 232);
      Pow2Monotone(e, 232);
      Threshold(nWord, 0x100_0000, Pow2(232));
      MulMonotone(Pow2(e), Pow2(232), nWord);
    }
  }

  lemma Threshold(x: nat, y: nat, m: nat)
    requires m > 0
    ensures x * m >= y * m <==> x >= y
  {
    if x >= y { MulMonotone(y, x, m); } else { MulStrict(x, y, m); }
  }

  /** A number of at most 23 bits needs no more than that after losing low bytes. */
  lemma SmallTarget(nCompact: nat)
    requires nCompact / 0x100_0000 <= 3
    ensures Target(nCompact) <= nCompact % 0x80_0000
  {
    hide Pow2;
    var nWord, s := nCompact % 0x80_0000, 8 * (3 - nCompact / 0x100_0000);
    RestIs(nWord, s);
    MulMonotone(1, Pow2(s), Rest(nWord, s));
  }

  method SetCompact(r: Uint256, nCompact: nat) returns (fNegative: bool, fOverflow: bool)
    requires r.Valid() && nCompact < 0x1_0000_0000
    modifies r.pn
    ensures r.Valid() && r.V() == Wrap(Target(nCompact))
    ensures fNegative <==> Negative(nCompact)
    ensures fOverflow <==> Target(nCompact) >= Pow(8)
  {
    hide Pow, Pow2, Value, Wrap, Shl;
    var nSize := nCompact / 0x100_0000;
    var nWord := nCompact % 0x80_0000;
    PowIsPow2(8);
    Pow2Monotone(24, 256);
    Powers();
    if nSize <= 3 {
      SmallTarget(nCompact);
      nWord := Rest(nWord, 8 * (3 - nSize));
      var small := new Uint256(nWord);
      r.Assign(small);
      WrapIs(nWord, 0, nWord);
    } else {
      var small := new Uint256(nWord);
      r.Assign(small);
      r.ShlAssign(8 * (nSize - 3));
      OverflowExact(nWord, nSize);
      MulMonotone(1, Pow2(8 * (nSize - 3)), nWord);
    }
    fNegative := nWord != 0 && (nCompact / 0x80_0000) % 2 == 1;
    fOverflow := nWord != 0 && (nSize > 34 || (nWord > 0xff && nSize > 33) || (nWord > 0xffff && nSize > 32));
  }

  // ---------------------------------------------------------------- back to the compact form

  /** The number of bytes. */
  ghost predicate Bytes(x: nat, n: nat) {
    x < Pow2(8 * n) && (n > 0 ==> Pow2(8 * (n - 1)) <= x)
  }

  /** The leading three bytes of a number of `n` bytes. */
  function Leading(x: nat, n: nat): nat {
    if n <= 3 then x * Pow2(8 * (3 - n)) else Rest(x, 8 * (n - 3))
  }

  lemma LeadingBound(x: nat, n: nat)
    requires Bytes(x, n)
    ensures Leading(x, n) < 0x100_0000
  {
    hide Pow2;
    Powers();
    if n <= 3 {
      Pow2Add(8 * n, 8 * (3 - n));
      MulStrict(x, Pow2(8 * n), Pow2(8 * (3 - n)));
    } else {
      var s := 8 * (n - 3);
      Pow2Add(24, s);
      RestIs(x, s);
      if Rest(x, s) >= 0x100_0000 { MulMonotone(0x100_0000, Rest(x, s), Pow2(s)); }
    }
  }

  /** Two divisions by powers of two are one. */
  lemma RestTwice(x: nat, a: nat, b: nat)
    ensures Rest(Rest(x, a), b) == Rest(x, a + b)
  {
    hide Pow2;
    var p, q := Pow2(a), Pow2(b);
    Pow2Add(a, b);
    RestIs(x, a);
    RestIs(Rest(x, a), b);
    var y := Rest(x, a);
    var z, l, m := Rest(y, b), x % p, y % q;
    assert (z * q + m) * p + l == z * (p * q) + (m * p + l);
    MulMonotone(m + 1, q, p);
    assert (m + 1) * p == m * p + p && q * p == p * q;
    RestUnique(x, a + b, z, m * p + l);
  }

  lemma RestUnique(x: nat, s: nat, q: nat, r: nat)
    requires x == q * Pow2(s) + r && r < Pow2(s)
    ensures Rest(x, s) == q && x % Pow2(s) == r
  {
    hide Pow2;
    ModIs(x, q, Pow2(s), r);
  }

  lemma RestOfProduct(x: nat, s: nat)
    ensures Rest(x * Pow2(s), s) == x
  {
    hide Pow2;
    RestUnique(x * Pow2(s), s, x, 0);
  }

  /** What the compact form of a number keeps: `e` bytes, of which the low e - 3 are zeroed. */
  ghost function Kept(x: nat, e: nat): int {
    if e <= 3 then x else x - x % Pow2(8 * (e - 3))
  }

  /** Reading a mantissa of at most 23 bits. */
  lemma TargetOf(m: nat, e: nat)
    requires m < 0x80_0000
    ensures Target(m + e * 0x100_0000) == if e <= 3 then Rest(m, 8 * (3 - e)) else m * Pow2(8 * (e - 3))
    ensures !Negative(m + e * 0x100_0000)
  {
    hide Pow2, Rest;
    Digits(m, e);
  }

  /** The fields of a compact form, without and with the sign. */
  lemma Digits(m: nat, e: nat)
    requires m < 0x80_0000
    ensures var c := m + e * 0x100_0000;
      c / 0x100_0000 == e && c % 0x80_0000 == m && (c / 0x80_0000) % 2 == 0
    ensures var d := m + 0x80_0000 + e * 0x100_0000;
      d / 0x100_0000 == e && d % 0x80_0000 == m && (d / 0x80_0000) % 2 == 1
  {
    assert (m + e * 0x100_0000) / 0x80_0000 == 2 * e;
    assert (m + 0x80_0000 + e * 0x100_0000) / 0x80_0000 == 2 * e + 1;
  }

  lemma CompactKeeps(x: nat, n: nat, m: nat, e: nat)
    requires Bytes(x, n)
    requires if Leading(x, n) < 0x80_0000 then m == Leading(x, n) && e == n
             else m == Leading(x, n) / 0x100 && e == n + 1
    ensures m < 0x80_0000 && Target(m + e * 0x100_0000) == Kept(x, e)
  {
    hide Pow2, Rest;
    LeadingBound(x, n);
    Powers();
    TargetOf(m, e);
    assert Leading(x, n) / 0x100 == Rest(Leading(x, n), 8) by { RestIsDivision(Leading(x, n)); }
    if n <= 3 {
      if e == n { RestOfProduct(x, 8 * (3 - n)); } else if n < 3 {
        RestTwice(Leading(x, n), 8, 8 * (3 - e));
        RestOfProduct(x, 8 * (3 - n));
      } else {
        assert Leading(x, 3) == x;
        RestIs(x, 8);
      }
    } else {
      RestTwice(x, 8 * (n - 3), 8);
      RestIs(x, 8 * (e - 3));
    }
  }

  lemma RestIsDivision(x: nat)
    ensures Rest(x, 8) == x / 0x100
  {
    Powers();
  }

  /** An even number added on top of both halves. */
  lemma OrHalves(x: nat, y: nat, q: nat)
    requires Or(x / 2 + q, y / 2) == Or(x / 2, y / 2) + q
    ensures Or(x + 2 * q, y) == Or(x, y) + 2 * q
  {
    assert (x + 2 * q) / 2 == x / 2 + q && (x + 2 * q) % 2 == x % 2;
  }

  lemma {:induction false} OrAbove(x: nat, y: nat, z: nat, s: nat)
    requires x < Pow2(s) && y < Pow2(s)
    ensures Or(x + z * Pow2(s), y) == Or(x, y) + z * Pow2(s)
  {
    hide Or;
    if s == 0 {
      OrZero(z);
      OrZero(0);
    } else {
      var p := Pow2(s - 1);
      OrAbove(x / 2, y / 2, z, s - 1);
      OrHalves(x, y, z * p);
      Associate(2, z, p);
      Associate(z, 2, p);
    }
  }

  /** The parts of a compact form do not overlap. */
  lemma Packed(m: nat, e: nat)
    requires m < 0x80_0000
    ensures Or(m, e * 0x100_0000) == m + e * 0x100_0000
    ensures Or(m + e * 0x100_0000, 0x80_0000) == m + 0x80_0000 + e * 0x100_0000
  {
    hide Pow2, Or;
    Powers();
    NextPower(23);
    ModIs(e * 0x100_0000, e, Pow2(24), 0);
    ModIs(0x80_0000, 1, Pow2(23), 0);
    OrAdds(m, e * 0x100_0000, 24);
    OrAbove(m, 0x80_0000, e, 24);
    OrAdds(m, 0x80_0000, 23);
  }

  lemma LowLimb(s: seq<nat>)
    requires |s| == 8 && Lims(s) && Value(s) < 0x1_0000_0000
    ensures s[0] == Value(s) && s[1] == 0
  {
    hide Value, Pow;
    assert s == [s[0]] + s[1..];
    ValueCons(s[0], s[1..]);
    if s[1] > 0 { NonZero(s[1..], 0); }
  }

  /** The low 64 bits of a number that needs no more than 32. */
  method GetLow64(x: Uint256) returns (r: nat)
    requires x.Valid() && x.V() < 0x1_0000_0000
    ensures r == x.V()
  {
    hide Value, Or;
    LowLimb(x.pn[..]);
    OrZero(x.pn[0]);
    r := Or(x.pn[0], x.pn[1] * 0x1_0000_0000);
  }

  lemma BytesOfBits(x: nat, bits: nat)
    requires x < Pow2(bits) && (bits > 0 ==> Pow2(bits - 1) <= x)
    ensures Bytes(x, (bits + 7) / 8)
  {
    var n := (bits + 7) / 8;
    Pow2Monotone(bits, 8 * n);
    if n > 0 { Pow2Monotone(8 * (n - 1), bits - 1); }
  }

  method LeadingBytes(x: Uint256, nSize: nat) returns (m: nat)
    requires x.Valid() && Bytes(x.V(), nSize)
    ensures m == Leading(x.V(), nSize)
  {
    hide Value, Pow2, Shr;
    LeadingBound(x.V(), nSize);
    if nSize <= 3 {
      MulMonotone(1, Pow2(8 * (3 - nSize)), x.V());
      var low := GetLow64(x);
      m := low * Pow2(8 * (3 - nSize));
    } else {
      var bn := new Uint256.Copy(x);
      bn.ShrAssign(8 * (nSize - 3));
      m := GetLow64(bn);
    }
  }

  /** The size and the 23 leading bits; a leading byte of zero is put in front where the sign bit would be taken. */
  method Mantissa(x: Uint256) returns (m: nat, nSize: nat)
    requires x.Valid()
    ensures m < 0x80_0000 && nSize < 256 && Target(m + nSize * 0x100_0000) == Kept(x.V(), nSize)
    ensures Bytes(x.V(), nSize) || (nSize > 0 && Bytes(x.V(), nSize - 1))
    ensures if x.V() == 0 then m == 0 && nSize == 0 else Shortest(x.V(), nSize)
  {
    hide Value, Pow2, Bytes, Leading, Rest, Or, Shortest, Target, Kept;
    var bits := x.Bits();
    BytesOfBits(x.V(), bits);
    nSize := (bits + 7) / 8;
    m := LeadingBytes(x, nSize);
    LeadingBound(x.V(), nSize);
    if x.V() > 0 { ShortestIs(x.V(), nSize); } else { NoBytes(nSize); }
    if (m / 0x80_0000) % 2 == 1 {
      m := m / 0x100;
      nSize := nSize + 1;
    }
    CompactKeeps(x.V(), (bits + 7) / 8, m, nSize);
  }

  /** Reading the result back gives the number without its low bytes; at least the two leading bytes are kept. */
  method GetCompact(x: Uint256, fNegative: bool) returns (nCompact: nat)
    requires x.Valid()
    ensures nCompact < 0x1_0000_0000
    ensures var e := nCompact / 0x100_0000;
      Target(nCompact) == Kept(x.V(), e) && (Bytes(x.V(), e) || (e > 0 && Bytes(x.V(), e - 1)))
    ensures Negative(nCompact) <==> fNegative && Target(nCompact) != 0
    ensures if x.V() == 0 then nCompact == 0 else Shortest(x.V(), nCompact / 0x100_0000)
  {
    hide Value, Pow2, Bytes, Leading, Rest, Or, Shortest, Target, Kept, Negative;
    var m, nSize := Mantissa(x);
    Packed(m, nSize);
    TargetOf(m, nSize);
    SignedTarget(m, nSize);
    nCompact := Or(m, nSize * 0x100_0000);
    if fNegative && nCompact % 0x80_0000 != 0 { nCompact := Or(nCompact, 0x80_0000); }
  }

  /** The least number of bytes that leave the sign bit of the leading one free. */
  ghost predicate Shortest(x: nat, e: nat) {
    e >= 1 && x < Pow2(8 * e - 1) && (e >= 2 ==> Pow2(8 * e - 9) <= x)
  }

  lemma ShortestIs(x: nat, n: nat)
    requires Bytes(x, n) && x > 0
    ensures Shortest(x, if Leading(x, n) < 0x80_0000 then n else n + 1)
  {
    hide Pow2, Leading;
    LeadingTop(x, n);
    if n >= 2 { Pow2Monotone(8 * n - 9, 8 * (n - 1)); }
    Pow2Monotone(8 * n, 8 * n + 7);
  }

  /** The leading bit of the three leading bytes is the leading bit of them all. */
  lemma LeadingTop(x: nat, n: nat)
    requires Bytes(x, n) && x > 0
    ensures n >= 1 && (Leading(x, n) < 0x80_0000 <==> x < Pow2(8 * n - 1))
  {
    hide Rest;
    Powers();
    assert Pow2(24) == 2 * Pow2(23);
    hide Pow2;
    assert n >= 1 by { Powers(); }
    if n <= 3 {
      var s := 8 * (3 - n);
      Pow2Add(8 * n - 1, s);
      Threshold(x, Pow2(8 * n - 1), Pow2(s));
    } else {
      var s := 8 * (n - 3);
      Pow2Add(23, s);
      RestThreshold(x, s);
    }
  }

  lemma RestThreshold(x: nat, s: nat)
    ensures Rest(x, s) < 0x80_0000 <==> x < 0x80_0000 * Pow2(s)
  {
    hide Pow2, Rest;
    RestIs(x, s);
    var q := Rest(x, s);
    if q < 0x80_0000 { MulMonotone(q + 1, 0x80_0000, Pow2(s)); } else { MulMonotone(0x80_0000, q, Pow2(s)); }
  }

  lemma NoBytes(n: nat)
    requires Bytes(0, n)
    ensures n == 0 && Leading(0, n) == 0
  {
  }

  /** The forms that the repository's tests give for some numbers. */
  lemma KnownTargets()
    ensures Target(0x0112_3456) == 0x12 && Target(0x0212_3456) == 0x1234 && Target(0x0312_3456) == 0x12_3456
    ensures Target(0x0412_3456) == 0x1234_5600 && Target(0x0500_9234) == 0x9234_0000 && Target(0x0100_3456) == 0
    ensures Negative(0x0492_3456) && Target(0x0492_3456) == 0x1234_5600 && !Negative(0x0180_3456)
  {
    Powers();
  }

  lemma SignedTarget(m: nat, e: nat)
    requires m < 0x80_0000
    ensures var c, d := m + e * 0x100_0000, m + 0x80_0000 + e * 0x100_0000;
      && c % 0x80_0000 == m && c / 0x100_0000 == d / 0x100_0000 == e
      && Target(d) == Target(c) && (Negative(d) <==> Target(d) != 0) && (Target(d) != 0 ==> m != 0)
  {
    hide Pow2;
    Digits(m, e);
    if m == 0 { ZeroTarget(e); }
  }

  lemma ZeroTarget(e: nat)
    ensures Target(0x80_0000 + e * 0x100_0000) == 0
  {
    hide Pow2, Rest;
    Digits(0, e);
    if e <= 3 { RestOfProduct(0, 8 * (3 - e)); }
  }

  // ---------------------------------------------------------------- the work of a block

  /** A target that SetCompact accepts is never 2^256 - 1. */
  lemma TargetNotAllOnes(nCompact: nat)
    requires Target(nCompact) < Pow(8)
    ensures Target(nCompact) + 1 < Pow(8)
  {
    hide Pow, Pow2, Rest;
    var nSize, nWord := nCompact / 0x100_0000, nCompact % 0x80_0000;
    Powers();
    PowIsPow2(8);
    if nSize <= 3 {
      SmallTarget(nCompact);
      Pow2Monotone(24, 256);
    } else {
      NextPower(8 * (nSize - 3) - 1);
      NextPower(255);
      EvenBelow(nWord, Pow2(8 * (nSize - 3) - 1), Pow2(255));
    }
  }

  lemma EvenBelow(x: nat, p: nat, q: nat)
    requires x * (2 * p) < 2 * q
    ensures x * (2 * p) + 1 < 2 * q
  {
    assert x * (2 * p) == 2 * (x * p);
  }

  /** 2^256 / (t + 1) without 2^256. */
  lemma ProofFormula(t: nat, m: nat)
    requires 0 < t && t + 1 < m
    ensures (m - 1 - t) / (t + 1) + 1 == m / (t + 1) < m
  {
    var d := t + 1;
    Division(m - 1 - t, d);
    var q, r := (m - d) / d, (m - d) % d;
    assert (q + 1) * d == q * d + d;
    ModIs(m, q + 1, d, r);
    MulMonotone(2, d, q + 1);
  }

  method GetBlockProof(nBits: nat) returns (r: Uint256)
    requires nBits < 0x1_0000_0000
    ensures r.Valid() && fresh(r) && fresh(r.pn)
    ensures r.V() ==
      if Negative(nBits) || Target(nBits) >= Pow(8) || Target(nBits) == 0 then 0 else Pow(8) / (Target(nBits) + 1)
  {
    hide Pow, Value, Wrap, Target;
    ghost var t := Target(nBits);
    var bnTarget := new Uint256(0);
    var fNegative, fOverflow := SetCompact(bnTarget, nBits);
    var zero := bnTarget.IsZero();
    if !fOverflow { WrapIs(t, 0, t); }
    if fNegative || fOverflow || zero {
      r := new Uint256(0);
      return;
    }
    TargetNotAllOnes(nBits);
    ProofFormula(t, Pow(8));
    var one := new Uint256(1);
    var next := new Uint256.Copy(bnTarget);
    next.AddAssign(one);
    WrapIs(t + 1, 0, t + 1);
    r := bnTarget.Not();
    var ok := r.DivAssign(next);
    r.AddAssign(one);
    WrapIs(Pow(8) / (t + 1), 0, Pow(8) / (t + 1));
  }
}
