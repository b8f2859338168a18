/**
256-bit unsigned integers (src/arith_uint256.h, src/arith_uint256.cpp): eight 32-bit limbs updated in place.
Every operation is proved to be the one on integers, modulo 2^256. The second operand may be the object itself.
*/
module ArithUint256 {
  import opened Numbers
  import opened Limbs

  /** What 256 bits keep of a number. */
  ghost function Wrap(x: nat): (r: nat)
    ensures r < Pow(8)
  {
    x % Pow(8)
  }

  lemma WrapIs(x: nat, q: nat, r: nat)
    requires x == q * Pow(8) + r && r < Pow(8)
    ensures Wrap(x) == r
  {
    ModIs(x, q, Pow(8), r);
  }

  /** One step of a sum: limbs before `i` and the carry stand for the sum of the operands' limbs. */
  lemma AddStep(va: nat, vb: nat, vr: nat, x: nat, y: nat, carry: nat, p: nat)
    requires vr + carry * p == va + vb
    ensures var n := carry + x + y;
      vr + (n % 0x1_0000_0000) * p + (n / 0x1_0000_0000) * (0x1_0000_0000 * p) == (va + x * p) + (vb + y * p)
  {
    CarryStep(carry + x + y, p);
    assert (carry + x + y) * p == carry * p + x * p + y * p;
  }

  class Uint256 {
    const pn: array<nat>

    ghost predicate Valid()
      reads pn
    {
      pn.Length == 8 && Lims(pn[..])
    }

    ghost function V(): nat
      reads pn
    {
      Value(pn[..])
    }

    constructor (b: nat)
      requires b < 0x1_0000_0000_0000_0000
      ensures Valid() && fresh(pn) && V() == b
    {
      pn := new nat[8](_ => 0);
      new;
      pn[0] := b % 0x1_0000_0000;
      pn[1] := b / 0x1_0000_0000;
      SmallValue(pn[..]);
    }

    constructor Copy(b: Uint256)
      requires b.Valid()
      ensures Valid() && fresh(pn) && pn[..] == b.pn[..]
    {
      pn := new nat[8](_ => 0);
      new;
      CopyLimbs(pn, b.pn);
    }

    method Assign(b: Uint256)
      requires Valid() && b.Valid()
      modifies pn
      ensures Valid() && pn[..] == old(b.pn[..])
    {
      CopyLimbs(pn, b.pn);
    }

    method AddAssign(b: Uint256)
      requires Valid() && b.Valid()
      modifies pn
      ensures Valid() && V() == Wrap(old(V()) + old(b.V()))
    {
      hide Value, Pow, Wrap;
      ghost var x, y := pn[..], b.pn[..];
      var carry: nat := 0;
      assert Value([]) == 0 by { ValueZeros([]); }
      for i := 0 to 8
        invariant Valid() && carry < 0x1_0000_0000
        invariant pn[i..] == x[i..] && b.pn[i..] == y[i..]
        invariant Value(pn[..i]) + carry * Pow(i) == Value(x[..i]) + Value(y[..i])
      {
        assert pn[i] == pn[i..][0] == x[i] && b.pn[i] == b.pn[i..][0] == y[i];
        ghost var done := pn[..i];
        var n := carry + pn[i] + b.pn[i];
        assert n < 0x1_0000_0000_0000_0000;
        AddStep(Value(x[..i]), Value(y[..i]), Value(done), x[i], y[i], carry, Pow(i));
        ValuePrefix(x, i);
        ValuePrefix(y, i);
        ValueSnoc(done, n % 0x1_0000_0000);
        PowNext(i);
        pn[i] := n % 0x1_0000_0000;
        carry := n / 0x1_0000_0000;
        assert pn[..i + 1] == done + [n % 0x1_0000_0000];
        assert pn[i + 1..] == x[i + 1..] && b.pn[i + 1..] == y[i + 1..];
      }
      assert pn[..8] == pn[..] && x[..8] == x && y[..8] == y;
      ValueBound(pn[..]);
      WrapIs(Value(x) + Value(y), carry, Value(pn[..]));
    }

    /** Flip every bit. */
    method Not() returns (r: Uint256)
      requires Valid()
      ensures r.Valid() && fresh(r) && fresh(r.pn) && V() + r.V() == Pow(8) - 1
    {
      r := new Uint256(0);
      for i := 0 to 8
        invariant r.Valid() && forall k :: 0 <= k < i ==> r.pn[k] == 0xFFFF_FFFF - pn[k]
      {
        r.pn[i] := 0xFFFF_FFFF - pn[i];
      }
      assert r.pn[..] == Complement(pn[..]);
      ComplementValue(pn[..]);
    }

    method Increment()
      requires Valid()
      modifies pn
      ensures Valid() && V() == Wrap(old(V()) + 1)
    {
      hide Value, Pow, Wrap;
      ghost var x := pn[..];
      ValueBound(x);
      PowZero();
      var i := 0;
      while i < 8
        invariant i <= 8 && Valid() && Value(pn[..]) + Pow(i) == Value(x) + 1
        invariant forall k :: 0 <= k < i ==> pn[k] == 0
      {
        ghost var s := pn[..];
        var y := (pn[i] + 1) % 0x1_0000_0000;
        ValueUpdate(s, i, y);
        pn[i] := y;
        assert pn[..] == s[i := y];
        PowNext(i);
        if y != 0 {
          IncrementStep(s[i], Pow(i));
          ValueBound(pn[..]);
          WrapIs(Value(x) + 1, 0, Value(pn[..]));
          return;
        }
        i := i + 1;
      }
      ValueZeros(pn[..]);
      WrapIs(Value(x) + 1, 1, 0);
    }

    method Decrement()
      requires Valid()
      modifies pn
      ensures Valid() && V() == if old(V()) == 0 then Pow(8) - 1 else old(V()) - 1
    {
      hide Value, Pow, Wrap;
      ghost var x := pn[..];
      PowZero();
      var i := 0;
      while i < 8
        invariant i <= 8 && Valid() && Value(pn[..]) + 1 == Value(x) + Pow(i)
        invariant forall k :: 0 <= k < i ==> pn[k] == 0xFFFF_FFFF && x[k] == 0
        invariant pn[i..] == x[i..]
      {
        ghost var s := pn[..];
        assert s[i] == pn[i..][0] == x[i];
        var y := if pn[i] == 0 then 0xFFFF_FFFF else pn[i] - 1;
        ValueUpdate(s, i, y);
        pn[i] := y;
        assert pn[..] == s[i := y];
        PowNext(i);
        if y != 0xFFFF_FFFF {
          IncrementStep(y, Pow(i));
          NonZero(x, i);
          return;
        }
        assert pn[i + 1..] == x[i + 1..];
        i := i + 1;
      }
      ValueZeros(x);
    }

    method Negate() returns (r: Uint256)
      requires Valid()
      ensures r.Valid() && fresh(r) && fresh(r.pn) && V() <= Pow(8) && r.V() == Wrap(Pow(8) - V())
    {
      hide Value, Pow, Wrap;
      ValueBound(pn[..]);
      r := Not();
      r.Increment();
    }

    method SubAssign(b: Uint256)
      requires Valid() && b.Valid()
      modifies pn
      ensures Valid() && V() == if old(V()) >= old(b.V()) then old(V()) - old(b.V()) else old(V()) + Pow(8) - old(b.V())
    {
      hide Value, Pow, Wrap;
      ValueBound(pn[..]);
      ValueBound(b.pn[..]);
      ghost var x, y := V(), b.V();
      var minus := b.Negate();
      AddAssign(minus);
      Difference(x, y);
    }

    method MulAssign32(b32: nat)
      requires Valid() && b32 < 0x1_0000_0000
      modifies pn
      ensures Valid() && V() == Wrap(old(V()) * b32)
    {
      hide Value, Pow, Wrap;
      ghost var x := pn[..];
      var carry: nat := 0;
      ValueZeros([]);
      for i := 0 to 8
        invariant Valid() && carry < 0x1_0000_0000 && pn[i..] == x[i..]
        invariant Value(pn[..i]) + carry * Pow(i) == Value(x[..i]) * b32
      {
        assert pn[i] == pn[i..][0] == x[i];
        ghost var done := pn[..i];
        var n := carry + b32 * pn[i];
        Product64(b32, pn[i], carry, 0);
        MulDigit(x, done, b32, carry, n);
        pn[i] := n % 0x1_0000_0000;
        carry := n / 0x1_0000_0000;
        assert pn[..i + 1] == done + [n % 0x1_0000_0000];
        assert pn[i + 1..] == x[i + 1..];
      }
      assert pn[..8] == pn[..] && x[..8] == x;
      ValueBound(pn[..]);
      WrapIs(Value(x) * b32, carry, Value(pn[..]));
    }

    /** The inner loop of a product: add a row, losing what does not fit. */
    method AddRow(j: nat, aj: nat, b: Uint256) returns (ghost lost: nat)
      requires Valid() && b.Valid() && j < 8 && aj < 0x1_0000_0000
      requires b.pn == pn ==> forall k :: 0 <= k < 8 ==> pn[k] == 0
      modifies pn
      ensures Valid() && b.pn[..] == old(b.pn[..])
      ensures V() + lost * Pow(8) == old(V()) + aj * Value(b.pn[..8 - j]) * Pow(j)
    {
      hide Value, Pow, Wrap;
      ghost var y, v := b.pn[..], V();
      var carry: nat := 0;
      ValueZeros(y[..0]);
      for i := 0 to 8 - j
        invariant Valid() && carry < 0x1_0000_0000 && b.pn[..] == y
        invariant b.pn == pn ==> carry == 0 && forall k :: 0 <= k < 8 ==> pn[k] == 0
        invariant V() + carry * Pow(i + j) == v + aj * Value(y[..i]) * Pow(j)
      {
        ghost var s := pn[..];
        assert b.pn[i] == y[i];
        var n := carry + pn[i + j] + aj * b.pn[i];
        RowNext(v, s, y, aj, i, j, carry, n);
        pn[i + j] := n % 0x1_0000_0000;
        carry := n / 0x1_0000_0000;
        assert pn[..] == s[i + j := n % 0x1_0000_0000];
      }
      lost := carry;
      assert b.pn[..8 - j] == y[..8 - j];
    }

    /** The object is cleared before the factor is read, so multiplying it by itself in place gives zero. */
    method MulAssign(b: Uint256)
      requires Valid() && b.Valid()
      modifies pn
      ensures Valid() && V() == if b.pn == pn then 0 else Wrap(old(V()) * old(b.V()))
    {
      hide Value, Pow, Wrap;
      ghost var x := pn[..];
      var a := new Uint256.Copy(this);
      var zero := new Uint256(0);
      Assign(zero);
      ZeroLimbs(pn[..]);
      ghost var y := b.pn[..];
      ghost var lost: nat := 0;
      ValueZeros(x[..0]);
      for j := 0 to 8
        invariant Valid() && a.pn[..] == x && b.pn[..] == y && (b.pn == pn ==> pn[..] == y && Value(y) == 0)
        invariant V() + lost * Pow(8) == Value(x[..j]) * Value(y)
      {
        ghost var v := V();
        if b.pn == pn { ZeroLimbs(pn[..]); }
        ghost var more := AddRow(j, a.pn[j], b);
        lost := ProductStep(x, y, j, v, V(), lost, more);
      }
      assert x[..8] == x;
      ValueBound(pn[..]);
      WrapIs(Value(x) * Value(y), lost, V());
    }

    method ShlAssign(shift: nat)
      requires Valid()
      modifies pn
      ensures Valid() && pn[..] == Shl(old(pn[..]), shift) && V() == Wrap(old(V()) * Pow2(shift))
    {
      hide Value, Pow, Pow2, Or, High, Low, Shl, Top;
      ghost var x := pn[..];
      var a := new Uint256.Copy(this);
      var zero := new Uint256(0);
      Assign(zero);
      ShlValue(x, shift);
      ZeroLimbs(pn[..]);
      ShlStart(x, shift);
      var k, s := shift / 32, shift % 32;
      for i := 0 to 8
        invariant pn.Length == 8 && a.pn[..] == x
        invariant forall j :: 0 <= j < 8 ==> pn[j] == ShlSoFar(x, shift, i, j)
      {
        ShlRound(x, shift, i);
        LimbParts(x[i], s);
        assert a.pn[i] == a.pn[..][i];
        if i + k + 1 < 8 && s != 0 { pn[i + k + 1] := Or(pn[i + k + 1], a.pn[i] / Pow2(32 - s)); }
        if i + k < 8 { pn[i + k] := Or(pn[i + k], (a.pn[i] * Pow2(s)) % 0x1_0000_0000); }
        forall j | 0 <= j < 8 ensures pn[j] == ShlSoFar(x, shift, i + 1, j) {
          assert pn[j] == ShlMoved(x, shift, i, j);
        }
      }
      ShlDone(x, shift);
      assert pn[..] == Shl(x, shift);
    }

    method ShrAssign(shift: nat)
      requires Valid()
      modifies pn
      ensures Valid() && pn[..] == Shr(old(pn[..]), shift) && V() == old(V()) / Pow2(shift)
    {
      hide Value, Pow, Pow2, Or, Spill, Rest, Shr;
      ghost var x := pn[..];
      var a := new Uint256.Copy(this);
      var zero := new Uint256(0);
      Assign(zero);
      ShrValue(x, shift);
      ZeroLimbs(pn[..]);
      ShrStart(x, shift);
      var k, s := shift / 32, shift % 32;
      for i := 0 to 8
        invariant pn.Length == 8 && a.pn[..] == x
        invariant forall j :: 0 <= j < 8 ==> pn[j] == ShrSoFar(x, shift, i, j)
      {
        ShrRound(x, shift, i);
        LimbRests(x[i], s);
        assert a.pn[i] == a.pn[..][i];
        if i - k - 1 >= 0 && s != 0 { pn[i - k - 1] := Or(pn[i - k - 1], (a.pn[i] * Pow2(32 - s)) % 0x1_0000_0000); }
        if i - k >= 0 { pn[i - k] := Or(pn[i - k], a.pn[i] / Pow2(s)); }
        forall j | 0 <= j < 8 ensures pn[j] == ShrSoFar(x, shift, i + 1, j) {
          assert pn[j] == ShrMoved(x, shift, i, j);
        }
      }
      ShrDone(x, shift);
      assert pn[..] == Shr(x, shift);
    }

    /** The position of the highest bit plus one, or zero. */
    method Bits() returns (n: nat)
      requires Valid()
      ensures n <= 256 && V() < Pow2(n) && (n > 0 ==> Pow2(n - 1) <= V())
    {
      hide Value, Pow, Pow2;
      var pos := 7;
      while pos >= 0
        invariant -1 <= pos <= 7 && forall k :: pos < k < 8 ==> pn[k] == 0
      {
        if pn[pos] != 0 {
          LimbBound(pn[pos]);
          var nbits := 31;
          while nbits > 0
            invariant 0 <= nbits <= 31 && pn[pos] < Pow2(nbits + 1)
          {
            BitOf(pn[pos], nbits);
            if (pn[pos] / Pow2(nbits)) % 2 == 1 {
              HighestBit(pn[..], pos, nbits);
              return 32 * pos + nbits + 1;
            }
            nbits := nbits - 1;
          }
          Pow2Zero();
          HighestBit(pn[..], pos, 0);
          return 32 * pos + 1;
        }
        pos := pos - 1;
      }
      ValueZeros(pn[..]);
      n := 0;
    }

    /** One round of a division: take the divisor away if it fits, and set the bit of the quotient. */
    method QuotientBit(num: Uint256, div: Uint256, shift: nat)
      requires Valid() && num.Valid() && div.Valid() && pn != num.pn && pn != div.pn && num.pn != div.pn
      requires shift < 256 && ClearBits(pn[..], shift + 1)
      modifies pn, num.pn
      ensures Valid() && num.Valid() && ClearBits(pn[..], shift)
      ensures old(num.V()) >= div.V() ==> num.V() == old(num.V()) - div.V() && V() == old(V()) + Pow2(shift)
      ensures old(num.V()) < div.V() ==> num.V() == old(num.V()) && V() == old(V())
    {
      hide Value, Pow, Pow2, ClearBits, Or;
      ghost var s := pn[..];
      SetBit(s, shift);
      FewerClear(s, shift);
      var cmp := num.CompareTo(div);
      if cmp >= 0 {
        num.SubAssign(div);
        var y := Or(pn[shift / 32], Pow2(shift % 32));
        pn[shift / 32] := y;
        assert pn[..] == s[shift / 32 := y];
      }
    }

    /** False is the exception for division by zero; the object is cleared by then. */
    method DivAssign(b: Uint256) returns (ok: bool)
      requires Valid() && b.Valid()
      modifies pn
      ensures Valid() && (ok <==> old(b.V()) != 0)
      ensures V() == if ok then old(V()) / old(b.V()) else 0
    {
      hide Value, Pow, Pow2, ClearBits;
      ghost var n, d := V(), b.V();
      var div := new Uint256.Copy(b);
      var num := new Uint256.Copy(this);
      var zero := new Uint256(0);
      Assign(zero);
      var numBits := num.Bits();
      var divBits := div.Bits();
      Pow2Zero();
      if divBits == 0 { return false; }
      if divBits > numBits {
        SmallDividend(n, d, numBits, divBits);
        return true;
      }
      var shift: int := numBits - divBits;
      Aligned(n, d, numBits, divBits);
      div.ShlAssign(shift);
      ZeroClear(pn[..], shift + 1);
      Rounds(num, div, shift, n, d);
      ok := true;
    }

    /** The loop of a division, from the aligned divisor on. */
    method Rounds(num: Uint256, div: Uint256, start: nat, ghost n: nat, ghost d: nat)
      requires Valid() && num.Valid() && div.Valid() && pn != num.pn && pn != div.pn && num.pn != div.pn && d > 0
      requires start < 256 && ClearBits(pn[..], start + 1) && n == V() * d + num.V()
      requires num.V() < d * Pow2(start + 1) && div.V() == d * Pow2(start)
      modifies pn, num.pn, div.pn
      ensures Valid() && V() == n / d
    {
      hide Value, Pow, Pow2, ClearBits, Shr;
      Pow2Zero();
      var shift: int := start;
      while shift >= 0
        invariant -1 <= shift < 256 && Valid() && num.Valid() && div.Valid()
        invariant ClearBits(pn[..], shift + 1) && n == V() * d + num.V() && num.V() < d * Pow2(shift + 1)
        invariant shift >= 0 ==> div.V() == d * Pow2(shift)
      {
        ghost var q, r := V(), num.V();
        QuotientBit(num, div, shift);
        div.ShrAssign(1);
        RoundDone(n, d, q, r, shift);
        shift := shift - 1;
      }
      ModIs(n, V(), d, num.V());
    }

    method CompareTo(b: Uint256) returns (r: int)
      requires Valid() && b.Valid()
      ensures r == if V() < b.V() then -1 else if V() > b.V() then 1 else 0
    {
      hide Value, Pow, Wrap;
      var i := 7;
      while i >= 0
        invariant -1 <= i <= 7 && forall k :: i < k < 8 ==> pn[k] == b.pn[k]
      {
        if pn[i] < b.pn[i] {
          CompareAt(pn[..], b.pn[..], i);
          return -1;
        }
        if pn[i] > b.pn[i] {
          CompareAt(b.pn[..], pn[..], i);
          return 1;
        }
        i := i - 1;
      }
      assert pn[..] == b.pn[..];
      r := 0;
    }

    method IsZero() returns (r: bool)
      requires Valid()
      ensures r <==> V() == 0
    {
      hide Value, Pow, Wrap;
      for i := 0 to 8
        invariant forall k :: 0 <= k < i ==> pn[k] == 0
      {
        if pn[i] != 0 {
          NonZero(pn[..], i);
          return false;
        }
      }
      ValueZeros(pn[..]);
      r := true;
    }
  }

  lemma MulStep(va: nat, vr: nat, x: nat, b: nat, carry: nat, p: nat)
    requires vr + carry * p == va * b
    ensures var n := carry + b * x;
      vr + (n % 0x1_0000_0000) * p + (n / 0x1_0000_0000) * (0x1_0000_0000 * p) == (va + x * p) * b
  {
    CarryStep(carry + b * x, p);
    assert (carry + b * x) * p == carry * p + (x * p) * b;
    assert (va + x * p) * b == va * b + (x * p) * b;
  }

  lemma MulDigit(x: seq<nat>, done: seq<nat>, b: nat, carry: nat, n: nat)
    requires |done| < |x| && Value(done) + carry * Pow(|done|) == Value(x[..|done|]) * b
    requires n == carry + b * x[|done|]
    ensures var i := |done|;
      Value(done + [n % 0x1_0000_0000]) + (n / 0x1_0000_0000) * Pow(i + 1) == Value(x[..i + 1]) * b
  {
    hide Value, Pow;
    var i := |done|;
    MulStep(Value(x[..i]), Value(done), x[i], b, carry, Pow(i));
    ValuePrefix(x, i);
    ValueSnoc(done, n % 0x1_0000_0000);
    PowNext(i);
  }

  /** One limb of a row. */
  lemma RowStep(v: nat, vs: nat, vs': nat, old': nat, a: nat, vy: nat, y: nat, carry: nat, pi: nat, pj: nat, p: nat,
      n: nat)
    requires p == pi * pj && vs + carry * p == v + a * vy * pj && n == carry + old' + a * y
    requires vs' + old' * p == vs + (n % 0x1_0000_0000) * p
    ensures vs' + (n / 0x1_0000_0000) * (0x1_0000_0000 * p) == v + a * (vy + y * pi) * pj
  {
    CarryStep(n, p);
    assert n * p == carry * p + old' * p + (a * y) * p;
    assert a * (vy + y * pi) * pj == a * vy * pj + (a * y) * (pi * pj);
  }

  /** One round of the inner loop; the sum fits in 64 bits. */
  lemma RowNext(v: nat, s: seq<nat>, y: seq<nat>, aj: nat, i: nat, j: nat, carry: nat, n: nat)
    requires |s| == |y| == 8 && Lims(s) && Lims(y) && i + j < 8 && aj < 0x1_0000_0000 && carry < 0x1_0000_0000
    requires Value(s) + carry * Pow(i + j) == v + aj * Value(y[..i]) * Pow(j) && n == carry + s[i + j] + aj * y[i]
    ensures n < 0x1_0000_0000_0000_0000 && Lims(s[i + j := n % 0x1_0000_0000]) && n / 0x1_0000_0000 < 0x1_0000_0000
    ensures Value(s[i + j := n % 0x1_0000_0000]) + (n / 0x1_0000_0000) * Pow(i + 1 + j) ==
      v + aj * Value(y[..i + 1]) * Pow(j)
  {
    hide Value, Pow;
    Product64(aj, y[i], carry, s[i + j]);
    ValuePrefix(y, i);
    ValueUpdate(s, i + j, n % 0x1_0000_0000);
    PowAdd(i, j);
    PowNext(i + j);
    RowStep(v, Value(s), Value(s[i + j := n % 0x1_0000_0000]), s[i + j], aj, Value(y[..i]), y[i], carry,
            Pow(i), Pow(j), Pow(i + j), n);
  }

  /** What a row loses is a multiple of 2^256. */
  lemma RowLost(v: nat, v': nat, lost: nat, more: nat, a: nat, vx: nat, lo: nat, hi: nat, pm: nat, pj: nat)
    requires v + lost * (pm * pj) == vx * (lo + pm * hi) && v' + more * (pm * pj) == v + a * lo * pj
    ensures v' + (lost + more + a * hi) * (pm * pj) == (vx + a * pj) * (lo + pm * hi)
  {
    assert (lost + more + a * hi) * (pm * pj) == lost * (pm * pj) + more * (pm * pj) + (a * hi) * (pm * pj);
    assert (vx + a * pj) * (lo + pm * hi) == vx * (lo + pm * hi) + a * lo * pj + (a * hi) * (pm * pj);
  }

  lemma ProductStep(x: seq<nat>, y: seq<nat>, j: nat, v: nat, v': nat, lost: nat, more: nat) returns (lost': nat)
    requires |x| == |y| == 8 && j < 8
    requires v + lost * Pow(8) == Value(x[..j]) * Value(y)
    requires v' + more * Pow(8) == v + x[j] * Value(y[..8 - j]) * Pow(j)
    ensures v' + lost' * Pow(8) == Value(x[..j + 1]) * Value(y)
  {
    hide Value, Pow;
    var lo, hi := y[..8 - j], y[8 - j..];
    assert y == lo + hi;
    ValueAppend(lo, hi);
    ValuePrefix(x, j);
    PowAdd(8 - j, j);
    RowLost(v, v', lost, more, x[j], Value(x[..j]), Value(lo), Value(hi), Pow(8 - j), Pow(j));
    lost' := lost + more + x[j] * Value(hi);
  }

  // ---------------------------------------------------------------- the loops of the shifts

  lemma ZeroLimbs(s: seq<nat>)
    requires |s| == 8 && Value(s) == 0 && Lims(s)
    ensures forall k :: 0 <= k < 8 ==> s[k] == 0
  {
    hide Value;
    forall k | 0 <= k < 8 ensures s[k] == 0 { if s[k] > 0 { NonZero(s, k); } }
  }

  lemma LimbParts(x: nat, s: nat)
    requires s < 32
    ensures s > 0 ==> x / Pow2(32 - s) == High(x, s)
    ensures (x * Pow2(s)) % 0x1_0000_0000 == Low(x, s)
  {
  }

  /** Limb `j` of a left shift when the first `i` limbs have been moved. */
  ghost function ShlSoFar(x: seq<nat>, shift: nat, i: nat, j: nat): nat
    requires |x| == 8 && i <= 8 && j < 8
  {
    var k := shift / 32;
    if j < i + k then Shl(x, shift)[j] else if j == i + k then Top(x[..i], shift % 32) else 0
  }

  lemma ShlStart(x: seq<nat>, shift: nat)
    requires |x| == 8
    ensures forall j :: 0 <= j < 8 ==> ShlSoFar(x, shift, 0, j) == 0
  {
  }

  /** Limb `j` after limb `i` has been moved. */
  ghost function ShlMoved(x: seq<nat>, shift: nat, i: nat, j: nat): nat
    requires |x| == 8 && i < 8 && j < 8
  {
    var k, s := shift / 32, shift % 32;
    if j == i + k then Or(ShlSoFar(x, shift, i, j), Low(x[i], s))
    else if j == i + k + 1 && s != 0 then Or(ShlSoFar(x, shift, i, j), High(x[i], s))
    else ShlSoFar(x, shift, i, j)
  }

  lemma ShlRound(x: seq<nat>, shift: nat, i: nat)
    requires |x| == 8 && Lims(x) && i < 8
    ensures forall j :: 0 <= j < 8 ==> ShlSoFar(x, shift, i + 1, j) == ShlMoved(x, shift, i, j)
  {
    hide Shl, Low, Or;
    var k, s := shift / 32, shift % 32;
    OrZero(High(x[i], s));
    if i + k < 8 { ShlAt(x, shift, i + k); }
  }

  lemma ShlDone(x: seq<nat>, shift: nat)
    requires |x| == 8
    ensures forall j :: 0 <= j < 8 ==> ShlSoFar(x, shift, 8, j) == Shl(x, shift)[j]
  {
  }

  lemma LimbRests(x: nat, s: nat)
    requires s < 32
    ensures s > 0 ==> (x * Pow2(32 - s)) % 0x1_0000_0000 == Spill(x, s)
    ensures x / Pow2(s) == Rest(x, s)
  {
  }

  /** Limb `j` of a right shift when the first `i` limbs have been moved. */
  ghost function ShrSoFar(x: seq<nat>, shift: nat, i: nat, j: nat): nat
    requires |x| == 8 && i <= 8 && j < 8
  {
    var k, s := shift / 32, shift % 32;
    if j + k + 1 < i then Shr(x, shift)[j] else if j + k + 1 == i then Rest(x[j + k], s) else 0
  }

  /** Limb `j` after limb `i` has been moved. */
  ghost function ShrMoved(x: seq<nat>, shift: nat, i: nat, j: nat): nat
    requires |x| == 8 && i < 8 && j < 8
  {
    var k, s := shift / 32, shift % 32;
    if j + k == i then Or(ShrSoFar(x, shift, i, j), Rest(x[i], s))
    else if j + k + 1 == i && s != 0 then Or(ShrSoFar(x, shift, i, j), Spill(x[i], s))
    else ShrSoFar(x, shift, i, j)
  }

  lemma ShrStart(x: seq<nat>, shift: nat)
    requires |x| == 8
    ensures forall j :: 0 <= j < 8 ==> ShrSoFar(x, shift, 0, j) == 0
  {
  }

  lemma ShrRound(x: seq<nat>, shift: nat, i: nat)
    requires |x| == 8 && Lims(x) && i < 8
    ensures forall j :: 0 <= j < 8 ==> ShrSoFar(x, shift, i + 1, j) == ShrMoved(x, shift, i, j)
  {
    hide Shr, Rest, Or;
    var k, s := shift / 32, shift % 32;
    OrZero(Rest(x[i], s));
    if k + 1 <= i { ShrAt(x, shift, i - k - 1); }
  }

  lemma ShrDone(x: seq<nat>, shift: nat)
    requires |x| == 8 && Lims(x)
    ensures forall j :: 0 <= j < 8 ==> ShrSoFar(x, shift, 8, j) == Shr(x, shift)[j]
  {
    hide Rest, Or;
    var k := shift / 32;
    if k < 8 { ShrAt(x, shift, 7 - k); }
  }

  // ---------------------------------------------------------------- the highest bit

  lemma LimbBound(x: nat)
    requires x < 0x1_0000_0000
    ensures x < Pow2(31 + 1)
  {
    Pow2Of32();
  }

  lemma BitOf(x: nat, n: nat)
    requires x < Pow2(n + 1)
    ensures (x / Pow2(n)) % 2 == 1 <==> x >= Pow2(n)
  {
    var p := Pow2(n);
    if x >= p { ModIs(x, 1, p, x - p); } else { ModIs(x, 0, p, x); }
  }

  lemma HighestBit(s: seq<nat>, pos: nat, n: nat)
    requires |s| == 8 && Lims(s) && pos < 8 && n < 32 && (forall k :: pos < k < 8 ==> s[k] == 0)
    requires Pow2(n) <= s[pos] < Pow2(n + 1)
    ensures Pow2(32 * pos + n) <= Value(s) < Pow2(32 * pos + n + 1)
  {
    hide Value, Pow, Pow2;
    assert s == s[..pos + 1] + s[pos + 1..];
    ValueAppend(s[..pos + 1], s[pos + 1..]);
    ValueZeros(s[pos + 1..]);
    ValuePrefix(s, pos);
    ValueBound(s[..pos]);
    PowIsPow2(pos);
    Pow2Add(n, 32 * pos);
    Pow2Add(n + 1, 32 * pos);
    MulMonotone(Pow2(n), s[pos], Pow(pos));
    MulMonotone(s[pos] + 1, Pow2(n + 1), Pow(pos));
    IncrementStep(s[pos], Pow(pos));
  }

  // ---------------------------------------------------------------- division

  /** The lowest `t` bits are zero. */
  ghost predicate ClearBits(s: seq<nat>, t: nat) {
    forall j :: 0 <= j < |s| ==> ClearLimb(s[j], j, t)
  }

  ghost predicate ClearLimb(x: nat, j: nat, t: nat) {
    if 32 * j + 32 <= t then x == 0 else 32 * j < t ==> x % Pow2(t - 32 * j) == 0
  }

  lemma HalfClear(x: nat, n: nat)
    requires x % Pow2(n + 1) == 0
    ensures x % Pow2(n) == 0 && (x + Pow2(n)) % Pow2(n) == 0
  {
    var p := Pow2(n);
    Division(x, 2 * p);
    var q := x / (2 * p);
    assert q * (2 * p) == (2 * q) * p && (2 * q + 1) * p == (2 * q) * p + p;
    ModIs(x, 2 * q, p, 0);
    ModIs(x + p, 2 * q + 1, p, 0);
  }

  lemma FewerClear(s: seq<nat>, t: nat)
    requires ClearBits(s, t + 1)
    ensures ClearBits(s, t)
  {
    forall j | 0 <= j < |s| ensures ClearLimb(s[j], j, t) { FewerClearLimb(s[j], j, t); }
  }

  lemma FewerClearLimb(x: nat, j: nat, t: nat)
    requires ClearLimb(x, j, t + 1)
    ensures ClearLimb(x, j, t)
  {
    hide Pow2;
    if 32 * j < t < 32 * j + 32 {
      if t + 1 == 32 * j + 32 { ModIs(0, 0, Pow2(t - 32 * j), 0); } else { HalfClear(x, t - 32 * j); }
    }
  }

  lemma ZeroClear(s: seq<nat>, t: nat)
    requires |s| == 8 && Value(s) == 0 && Lims(s)
    ensures ClearBits(s, t)
  {
    hide Value, Pow2;
    ZeroLimbs(s);
    forall j | 0 <= j < |s| ensures ClearLimb(s[j], j, t) {
      if 32 * j < t { ModIs(0, 0, Pow2(t - 32 * j), 0); }
    }
  }

  /** Setting the next lower bit adds its power. */
  lemma SetBit(s: seq<nat>, shift: nat)
    requires |s| == 8 && Lims(s) && shift < 256 && ClearBits(s, shift + 1)
    ensures var y := Or(s[shift / 32], Pow2(shift % 32));
      var r := s[shift / 32 := y];
      Lims(r) && ClearBits(r, shift) && Value(r) == Value(s) + Pow2(shift)
  {
    hide Value, Pow, Pow2, Or;
    var k, b := shift / 32, shift % 32;
    var x, p := s[k], Pow2(b);
    TopClear(x, k, shift);
    NextPower(b);
    OrAdds(p, x, b + 1);
    LimbFits(p, x, b + 1);
    FewerClear(s, shift);
    HalfClear(x, b);
    ShiftPower(shift);
    ValueUpdate(s, k, x + p);
    assert (x + p) * Pow(k) == x * Pow(k) + Pow(k) * p;
    assert ClearLimb(x + p, k, shift);
  }

  lemma NextPower(b: nat)
    ensures Pow2(b + 1) == 2 * Pow2(b)
  {
  }

  lemma TopClear(x: nat, k: nat, shift: nat)
    requires k == shift / 32 && ClearLimb(x, k, shift + 1)
    ensures x % Pow2(shift % 32 + 1) == 0
  {
    hide Pow2;
    assert shift + 1 - 32 * k == shift % 32 + 1;
    if x == 0 { ModIs(0, 0, Pow2(shift % 32 + 1), 0); }
  }

  lemma SmallDividend(n: nat, d: nat, nb: nat, db: nat)
    requires nb < db && n < Pow2(nb) && Pow2(db - 1) <= d
    ensures n / d == 0
  {
    Pow2Monotone(nb, db - 1);
    ModIs(n, 0, d, n);
  }

  /** Shifted to the dividend's highest bit, the divisor fits in 256 bits, and twice it exceeds the dividend. */
  lemma Aligned(n: nat, d: nat, nb: nat, db: nat)
    requires 0 < db <= nb <= 256 && n < Pow2(nb) && Pow2(db - 1) <= d < Pow2(db)
    ensures Wrap(d * Pow2(nb - db)) == d * Pow2(nb - db) && n < d * Pow2(nb - db + 1)
  {
    hide Pow, Pow2, Wrap;
    var shift := nb - db;
    Pow2Add(db, shift);
    Pow2Add(db - 1, shift + 1);
    MulMonotone(d, Pow2(db), Pow2(shift));
    MulMonotone(Pow2(db - 1), d, Pow2(shift + 1));
    MulStrict(d, Pow2(db), Pow2(shift));
    PowIsPow2(8);
    Pow2Monotone(nb, 256);
    WrapIs(d * Pow2(shift), 0, d * Pow2(shift));
  }

  /** After a round the remainder is below the next divisor's double, and the quotient has its bit. */
  lemma RoundDone(n: nat, d: nat, q: nat, r: nat, shift: nat)
    requires n == q * d + r && r < d * Pow2(shift + 1)
    ensures r >= d * Pow2(shift) ==>
      n == (q + Pow2(shift)) * d + (r - d * Pow2(shift)) && r - d * Pow2(shift) < d * Pow2(shift)
    ensures shift > 0 ==> (d * Pow2(shift)) / Pow2(1) == d * Pow2(shift - 1)
  {
    var p := Pow2(shift);
    assert d * (2 * p) == 2 * (d * p) && (q + p) * d == q * d + d * p;
    if shift > 0 {
      var h := Pow2(shift - 1);
      assert d * (2 * h) == 2 * (d * h);
      assert Pow2(1) == 2 * Pow2(0);
    }
  }

  lemma PowZero()
    ensures Pow(0) == 1
  {
  }

  lemma IncrementStep(x: nat, p: nat)
    ensures (x + 1) * p == x * p + p && 0xFFFF_FFFF * p + p == 0x1_0000_0000 * p
  {
  }

  lemma NonZero(s: seq<nat>, i: nat)
    requires i < |s| && s[i] > 0
    ensures Value(s) > 0
  {
    hide Value, Pow;
    assert s == s[..i + 1] + s[i + 1..];
    ValueAppend(s[..i + 1], s[i + 1..]);
    ValuePrefix(s, i);
    MulMonotone(1, s[i], Pow(i));
    MulMonotone(0, Pow(i + 1), Value(s[i + 1..]));
  }

  /** Adding the negative subtracts. */
  lemma Difference(x: nat, y: nat)
    requires x < Pow(8) && y < Pow(8)
    ensures Wrap(x + Wrap(Pow(8) - y)) == if x >= y then x - y else x + Pow(8) - y
  {
    hide Pow, Wrap;
    var m := Pow(8);
    if y == 0 {
      WrapIs(m, 1, 0);
      WrapIs(x, 0, x);
    } else {
      WrapIs(m - y, 0, m - y);
      if x >= y { WrapIs(x + m - y, 1, x - y); } else { WrapIs(x + m - y, 0, x + m - y); }
    }
  }

  lemma PowNext(i: nat)
    ensures Pow(i + 1) == 0x1_0000_0000 * Pow(i)
  {
  }

  lemma SmallValue(s: seq<nat>)
    requires |s| == 8 && forall k :: 2 <= k < 8 ==> s[k] == 0
    ensures Value(s) == s[0] + s[1] * 0x1_0000_0000
  {
    assert s == s[..2] + s[2..];
    ValueAppend(s[..2], s[2..]);
    ValueZeros(s[2..]);
    assert s[..2] == [s[0]] + [s[1]];
    ValueCons(s[0], [s[1]]);
    ValueCons(s[1], []);
    assert [s[1]] == [s[1]] + [];
    ValueZeros([]);
  }

  method CopyLimbs(a: array<nat>, b: array<nat>)
    requires a.Length == b.Length == 8
    modifies a
    ensures a[..] == old(b[..])
  {
    ghost var y := b[..];
    for i := 0 to 8
      invariant a[..i] == y[..i] && b[i..] == y[i..]
    {
      assert b[i] == b[i..][0] == y[i];
      a[i] := b[i];
      assert a[..i + 1] == y[..i] + [y[i]];
      assert b[i + 1..] == y[i + 1..];
    }
    assert a[..] == a[..8] && y[..8] == y;
  }

  // ---------------------------------------------------------------- squaring in place

  lemma MultipleOf(k: nat, d: nat)
    requires d > 0
    ensures (k * d) % d == 0
  {
    Division(k * d, d);
    QuotientUnique(k, 0, (k * d) / d, (k * d) % d, d);
  }

  lemma SquareOf(w: nat, r: nat)
    requires r <= 1
    ensures (2 * w + r) * (2 * w + r) == 4 * (w * w + w * r) + r
  {
    assert r * r == r;
  }

  lemma EvenRoot(v: nat, x: nat)
    requires v * v == 4 * x
    ensures v == 2 * (v / 2) && (v / 2) * (v / 2) == x
  {
    var w, r := v / 2, v % 2;
    SquareOf(w, r);
    assert v == 2 * w + r;
    assert 4 * x == 4 * (w * w + w * r) + r;
  }

  lemma SquareQuarter(v: nat, p: nat)
    requires p > 0 && (v * v) % (4 * p) == 0
    ensures v == 2 * (v / 2) && ((v / 2) * (v / 2)) % p == 0
  {
    var q := (v * v) / (4 * p);
    Division(v * v, 4 * p);
    assert q * (4 * p) == 4 * (q * p);
    EvenRoot(v, q * p);
    MultipleOf(q, p);
  }

  /** A square is a multiple of 4^m only if the number is one of 2^m. */
  lemma {:induction false} RootMultiple(v: nat, m: nat)
    requires (v * v) % Pow2(2 * m) == 0
    ensures v % Pow2(m) == 0
  {
    if m > 0 {
      assert Pow2(2 * m) == 4 * Pow2(2 * m - 2) by { assert Pow2(2 * m) == 2 * Pow2(2 * m - 1); }
      SquareQuarter(v, Pow2(2 * m - 2));
      RootMultiple(v / 2, m - 1);
      TwiceMultiple(v / 2, Pow2(m - 1));
    }
  }

  /** Squaring in place gives zero, which is the square if and only if the number is a multiple of 2^128. */
  lemma {:induction false} SquareIsZero(v: nat)
    ensures Wrap(v * v) == 0 <==> v % Pow2(128) == 0
  {
    hide Pow2;
    PowIsPow2(8);
    if v % Pow2(128) == 0 {
      var k := v / Pow2(128);
      Division(v, Pow2(128));
      Pow2Add(128, 128);
      assert v * v == (k * Pow2(128)) * (k * Pow2(128)) == (k * k) * (Pow2(128) * Pow2(128));
      MultipleOf(k * k, Pow2(256));
    }
    if Wrap(v * v) == 0 { RootMultiple(v, 128); }
  }

  /** One squared in place. */
  method SquareOne() returns (one: Uint256, squared: Uint256)
    ensures one.Valid() && one.V() == 1 && squared.Valid() && squared.V() == 0
  {
    one := new Uint256(1);
    squared := new Uint256.Copy(one);
    squared.MulAssign(squared);
  }
}
