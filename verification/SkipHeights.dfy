/**
The skip list of the block index (src/chain.cpp): the height that each block's skip pointer leads to, the walk that
uses it to find an ancestor, and how many steps that walk takes.
*/
module SkipHeights {
  import opened Limbs
  import opened Numbers

  /** n & (n - 1): the lowest 1 in binary becomes 0. */
  function InvertLowestOne(n: nat): (r: nat)
    ensures r <= n && (n > 0 ==> r < n)
  {
    if n == 0 then 0 else if n % 2 == 1 then n - 1 else 2 * InvertLowestOne(n / 2)
  }

  lemma ClearsDouble(n: nat)
    ensures InvertLowestOne(2 * n) == 2 * InvertLowestOne(n) && InvertLowestOne(2 * n + 1) == 2 * n
  {
  }

  /** The bit that is cleared is the lowest: what remains is a multiple of twice its value. */
  lemma {:induction false} ClearsLowestOne(n: nat) returns (k: nat)
    requires n > 0
    ensures n == InvertLowestOne(n) + Pow2(k) && InvertLowestOne(n) % Pow2(k + 1) == 0
  {
    if n % 2 == 1 {
      k := 0;
      assert Pow2(0) == 1 && Pow2(1) == 2;
    } else {
      var j := ClearsLowestOne(n / 2);
      k := j + 1;
      TwiceMultiple(InvertLowestOne(n / 2), Pow2(j + 1));
    }
  }

  /** The height that a block's skip pointer leads to; always below its own. */
  function GetSkipHeight(height: nat): (r: nat)
    ensures height > 0 ==> r < height
    ensures height == 0 ==> r == 0
  {
    if height < 2 then 0
    else if height % 2 == 1 then InvertLowestOne(InvertLowestOne(height - 1)) + 1
    else InvertLowestOne(height)
  }

  /** Whether the walk follows the skip pointer: it does not jump too far, and one step back is not a better place. */
  predicate Follows(h: nat, target: nat)
    requires h > target
  {
    var skip, skipPrev := GetSkipHeight(h), GetSkipHeight(h - 1);
    skip == target || (skip > target && !(skipPrev < skip - 2 && skipPrev >= target))
  }

  /** One pass of the walk toward an ancestor. */
  function Next(h: nat, target: nat): (r: nat)
    requires h > target
    ensures target <= r < h
  {
    if Follows(h, target) then GetSkipHeight(h) else h - 1
  }

  /** All passes of the walk. */
  function Passes(h: nat, target: nat): nat
    requires h >= target
  {
    if h == target then 0 else 1 + Passes(Next(h, target), target)
  }

  // ---------------------------------------------------------------- the ones of a number

  function Ones(n: nat): nat {
    if n == 0 then 0 else 1 + Ones(InvertLowestOne(n))
  }

  lemma {:induction false} OnesDouble(n: nat)
    ensures Ones(2 * n) == Ones(n)
  {
    hide InvertLowestOne;
    ClearsDouble(n);
    if n > 0 { OnesDouble(InvertLowestOne(n)); }
  }

  lemma {:induction false} OnesAtMost(n: nat, d: nat)
    requires n < Pow2(d)
    ensures Ones(n) <= d
  {
    if n > 0 {
      OnesAtMost(n / 2, d - 1);
      OnesDouble(n / 2);
    }
  }

  lemma {:induction false} AllOnes(d: nat)
    ensures Ones(Pow2(d) - 1) == d
  {
    hide InvertLowestOne;
    if d > 0 {
      AllOnes(d - 1);
      OnesDouble(Pow2(d - 1) - 1);
      ClearsDouble(Pow2(d - 1) - 1);
    }
  }

  // ---------------------------------------------------------------- skip heights above a power of two

  predicate Multiple(a: nat, d: nat) {
    d > 0 ==> a % 2 == 0 && Multiple(a / 2, d - 1)
  }

  lemma HalfSum(a: nat, q: nat)
    requires a % 2 == 0
    ensures (a + 2 * q) % 2 == 0 && (a + 2 * q) / 2 == a / 2 + q
  {
  }

  lemma {:induction false} MultipleHalf(a: nat, d: nat)
    requires d > 0 && Multiple(a, d)
    ensures Multiple(a, d - 1) && Multiple(a + Pow2(d - 1), d - 1)
  {
    if d > 1 {
      MultipleHalf(a / 2, d - 1);
      HalfSum(a, Pow2(d - 2));
    }
  }

  lemma {:induction false} ClearsBelow(b: nat, d: nat, x: nat)
    requires Multiple(b, d) && 0 < x < Pow2(d)
    ensures InvertLowestOne(b + x) == b + InvertLowestOne(x)
  {
    hide InvertLowestOne;
    var c, y := b / 2, x / 2;
    ClearsDouble(y);
    ClearsDouble(c + y);
    if x % 2 == 0 {
      ClearsBelow(c, d - 1, y);
      assert b + x == 2 * (c + y);
    } else {
      assert b + x == 2 * (c + y) + 1;
    }
  }

  lemma {:induction false} ClearsTop(a: nat, d: nat)
    requires Multiple(a, d + 1)
    ensures InvertLowestOne(a + Pow2(d)) == a
  {
    hide InvertLowestOne;
    var c := a / 2;
    if d > 0 {
      ClearsTop(c, d - 1);
      ClearsDouble(c + Pow2(d - 1));
      assert a + Pow2(d) == 2 * (c + Pow2(d - 1));
    } else {
      ClearsDouble(c);
      assert a + Pow2(d) == 2 * c + 1;
    }
  }

  /** A height of a phase: its bit `d` is set, its lower bits are `x`. */
  ghost predicate InPhase(a: nat, d: nat, x: nat) {
    Multiple(a, d + 1) && x < Pow2(d)
  }

  lemma EvenBase(a: nat, d: nat, v: nat)
    requires InPhase(a, d, 2 * v)
    ensures a % 2 == 0 && (d > 0 ==> (a + Pow2(d) + 2 * v) % 2 == 0)
    ensures v > 0 ==> d > 0
  {
    if d > 0 { HalfSum(a, Pow2(d - 1) + v); }
  }

  lemma SkipEven(a: nat, d: nat, v: nat)
    requires InPhase(a, d, 2 * v) && v > 0
    ensures GetSkipHeight(a + Pow2(d) + 2 * v) == a + Pow2(d) + InvertLowestOne(2 * v)
  {
    hide Multiple, InvertLowestOne;
    MultipleHalf(a, d + 1);
    ClearsBelow(a + Pow2(d), d, 2 * v);
    EvenBase(a, d, v);
  }

  /** Clearing the two lowest ones above the phase's base. */
  lemma ClearsTwo(a: nat, d: nat, y: nat)
    requires InPhase(a, d, y)
    ensures var rest := InvertLowestOne(y);
      InvertLowestOne(InvertLowestOne(a + Pow2(d) + y)) ==
        if rest > 0 then a + Pow2(d) + InvertLowestOne(rest) else if y > 0 then a else InvertLowestOne(a)
  {
    hide Multiple, InvertLowestOne;
    MultipleHalf(a, d + 1);
    ClearsTop(a, d);
    var b, rest := a + Pow2(d), InvertLowestOne(y);
    if y > 0 { ClearsBelow(b, d, y); } else { ClearsZero(); }
    if rest > 0 { ClearsBelow(b, d, rest); }
  }

  lemma ClearsZero()
    ensures InvertLowestOne(0) == 0
  {
  }

  lemma SkipOdd(a: nat, d: nat, v: nat)
    requires InPhase(a, d, 2 * v + 1)
    ensures var rest := InvertLowestOne(2 * v);
      GetSkipHeight(a + Pow2(d) + 2 * v + 1) == 1 +
        if rest > 0 then a + Pow2(d) + InvertLowestOne(rest) else if v > 0 then a else InvertLowestOne(a)
  {
    hide Multiple, InvertLowestOne, GetSkipHeight;
    EvenBase(a, d, v);
    ClearsTwo(a, d, 2 * v);
    OddSkip(a + Pow2(d) + 2 * v);
  }

  lemma OddSkip(e: nat)
    requires e > 0 && e % 2 == 0
    ensures GetSkipHeight(e + 1) == 1 + InvertLowestOne(InvertLowestOne(e))
  {
    hide InvertLowestOne;
  }

  lemma SkipZero(a: nat, d: nat)
    requires InPhase(a, d, 0) && d > 0
    ensures GetSkipHeight(a + Pow2(d)) == a
  {
    hide InvertLowestOne;
    ClearsTop(a, d);
    EvenBase(a, d, 0);
  }

  // ---------------------------------------------------------------- one pass within a phase

  /** The target is below the phase's base, which has bit `d` set, and not below the rest of that base. */
  ghost predicate Toward(a: nat, d: nat, x: nat, target: nat) {
    InPhase(a, d, x) && a <= target < a + Pow2(d)
  }

  lemma EvenRest(n: nat)
    requires n % 2 == 0 && n > 0
    ensures InvertLowestOne(n) <= n - 2
  {
  }

  lemma NextOdd(a: nat, d: nat, v: nat, target: nat)
    requires Toward(a, d, 2 * v + 1, target)
    ensures var b, rest := a + Pow2(d), InvertLowestOne(2 * v);
      Next(b + 2 * v + 1, target) ==
        if rest > 0 then b + InvertLowestOne(rest) + 1
        else if target <= a + 1 && (v > 0 || a == 0) then a + 1
        else b + 2 * v
  {
    hide Multiple, InvertLowestOne, GetSkipHeight;
    EvenBase(a, d, v);
    SkipOdd(a, d, v);
    if a > 0 { EvenRest(a); } else { ClearsZero(); }
    if v > 0 { SkipEven(a, d, v); } else { SkipZero(a, d); }
  }

  lemma NextZero(a: nat, d: nat, target: nat)
    requires Toward(a, d, 0, target)
    ensures Next(a + Pow2(d), target) == if target == a then a else a + Pow2(d) - 1
  {
    hide Multiple, InvertLowestOne, GetSkipHeight;
    if d > 0 { SkipZero(a, d); }
  }

  lemma EightRest(w: nat)
    requires w > 0
    ensures InvertLowestOne(8 * w) <= 8 * w - 8
    ensures InvertLowestOne(8 * w - 2) == 8 * w - 4 && InvertLowestOne(8 * w - 4) == 8 * w - 8
  {
    hide InvertLowestOne;
    ClearsDouble(w);
    ClearsDouble(2 * w);
    ClearsDouble(4 * w);
    ClearsDouble(4 * w - 1);
    ClearsDouble(2 * w - 1);
    ClearsDouble(4 * w - 2);
    ClearsDouble(w - 1);
    assert 2 * w - 1 == 2 * (w - 1) + 1 && 4 * w - 1 == 2 * (2 * w - 1) + 1;
  }

  lemma NextEight(a: nat, d: nat, w: nat, target: nat)
    requires Toward(a, d, 8 * w, target) && w > 0
    ensures Next(a + Pow2(d) + 8 * w, target) == a + Pow2(d) + InvertLowestOne(8 * w)
  {
    hide Multiple, InvertLowestOne, GetSkipHeight;
    SkipEven(a, d, 4 * w);
    SkipOdd(a, d, 4 * w - 1);
    EightRest(w);
  }

  lemma FourRest(w: nat)
    ensures InvertLowestOne(8 * w + 4) == 8 * w && InvertLowestOne(8 * w + 2) == 8 * w
    ensures w > 0 ==> InvertLowestOne(8 * w) <= 8 * w - 8
  {
    hide InvertLowestOne;
    ClearsDouble(w);
    ClearsDouble(2 * w);
    ClearsDouble(4 * w);
    ClearsDouble(4 * w + 2);
    ClearsDouble(2 * w + 1);
    ClearsDouble(4 * w + 1);
    assert 8 * w + 4 == 2 * (4 * w + 2) && 4 * w + 2 == 2 * (2 * w + 1) && 4 * w + 1 == 2 * (2 * w) + 1;
  }

  lemma NextFour(a: nat, d: nat, w: nat, target: nat)
    requires Toward(a, d, 8 * w + 4, target)
    ensures Next(a + Pow2(d) + 8 * w + 4, target) ==
      a + Pow2(d) + if w > 0 || target <= a + 1 then 8 * w + 3 else 0
  {
    hide Multiple, InvertLowestOne, GetSkipHeight;
    SkipEven(a, d, 4 * w + 2);
    SkipOdd(a, d, 4 * w + 1);
    FourRest(w);
  }

  lemma TwoRest(w: nat)
    ensures InvertLowestOne(4 * w + 2) == 4 * w
    ensures InvertLowestOne(4 * w) > 0 ==> InvertLowestOne(InvertLowestOne(4 * w)) <= 4 * w - 8
  {
    hide InvertLowestOne;
    ClearsDouble(w);
    ClearsDouble(2 * w);
    ClearsDouble(2 * w + 1);
    var v := InvertLowestOne(w);
    ClearsDouble(v);
    ClearsDouble(2 * v);
    assert 4 * w + 2 == 2 * (2 * w + 1) && 4 * w == 2 * (2 * w) && 4 * v == 2 * (2 * v);
  }

  lemma NextTwo(a: nat, d: nat, w: nat, target: nat)
    requires Toward(a, d, 4 * w + 2, target)
    ensures Next(a + Pow2(d) + 4 * w + 2, target) == a + Pow2(d) + 4 * w +
      if InvertLowestOne(4 * w) > 0 || (target <= a + 1 && (w > 0 || a == 0)) then 1 else 0
  {
    hide Multiple, InvertLowestOne, GetSkipHeight;
    EvenBase(a, d, 2 * w + 1);
    if a > 0 { EvenRest(a); } else { ClearsZero(); }
    SkipEven(a, d, 2 * w + 1);
    SkipOdd(a, d, 2 * w);
    TwoRest(w);
  }

  // ---------------------------------------------------------------- all passes within a phase

  /** Passes needed from an odd height with `k` ones below the phase's bit, for a target close to what is above it. */
  function OddRoom(close: bool, k: nat): nat {
    if close then (k + 1) / 2 else k / 2 + 1
  }

  /** Passes needed until the bits below the phase's bit are gone. */
  function Room(close: bool, x: nat): nat {
    var rest := InvertLowestOne(x);
    if x == 0 then 0
    else if x - rest == 1 then OddRoom(close, Ones(x))
    else if x - rest >= 8 then Ones(x)
    else if !close && rest == 0 then 1
    else 1 + OddRoom(close, Ones(x - 1))
  }

  lemma OnesOdd(v: nat)
    ensures Ones(2 * v + 1) == 1 + Ones(v) == 1 + Ones(2 * v)
  {
    hide InvertLowestOne;
    ClearsDouble(v);
    OnesDouble(v);
  }

  lemma OnesNone(n: nat)
    requires n > 0 && InvertLowestOne(n) == 0
    ensures Ones(n) == 1
  {
  }

  /** The lowest one of a number is its first, second, third, or a later bit. */
  lemma LowestBit(x: nat) returns (lowest: nat, w: nat)
    ensures lowest == 1 || lowest == 2 || lowest == 4 || lowest == 8
    ensures x == match lowest case 1 => 2 * w + 1 case 2 => 4 * w + 2 case 4 => 8 * w + 4 case _ => 8 * w
  {
    lowest, w := 1, x / 2;
    if x == 2 * w {
      var v := w;
      lowest, w := 2, v / 2;
      if v == 2 * w {
        var u := w;
        w := u / 2;
        lowest := if u == 2 * w then 8 else 4;
      }
    }
  }

  lemma RoomOf(close: bool, w: nat)
    ensures Room(close, 2 * w + 1) == OddRoom(close, Ones(2 * w + 1)) && Room(close, 8 * w) == Ones(8 * w)
    ensures Room(close, 4 * w + 2) ==
      if !close && InvertLowestOne(4 * w + 2) == 0 then 1 else 1 + OddRoom(close, Ones(4 * w + 1))
    ensures Room(close, 8 * w + 4) ==
      if !close && InvertLowestOne(8 * w + 4) == 0 then 1 else 1 + OddRoom(close, Ones(8 * w + 3))
  {
    hide InvertLowestOne, OddRoom;
    ClearsDouble(w);
    TwoRest(w);
    FourRest(w);
    if w > 0 { EightRest(w); }
  }

  /** A pass leaves fewer of the low bits to clear, or jumps just above the bits that remain. */
  ghost predicate Progress(a: nat, d: nat, x: nat, target: nat, y: nat)
    requires target < a + Pow2(d)
  {
    var close := target <= a + 1;
    var n := Next(a + Pow2(d) + x, target);
    if n == a + Pow2(d) + y then y < x && Room(close, y) < Room(close, x)
    else close && n == a + 1 && Room(close, x) >= 1
  }

  lemma OddProgress(a: nat, d: nat, v: nat, target: nat) returns (y: nat)
    requires Toward(a, d, 2 * v + 1, target)
    ensures Progress(a, d, 2 * v + 1, target, y)
  {
    hide Toward, InPhase, InvertLowestOne, Pow2, Next, Room;
    NextOdd(a, d, v, target);
    RoomOf(target <= a + 1, v);
    var u := InvertLowestOne(v);
    ClearsDouble(v);
    ClearsDouble(u);
    OnesOdd(v);
    if u > 0 {
      y := 2 * InvertLowestOne(u) + 1;
      OnesOdd(InvertLowestOne(u));
      RoomOf(target <= a + 1, InvertLowestOne(u));
    } else {
      y := 2 * v;
      RoomZero(target <= a + 1);
      RoomSingle(v);
      if v > 0 { OnesNone(v); }
    }
  }

  lemma RoomSingle(v: nat)
    requires InvertLowestOne(2 * v) == 0
    ensures Room(false, 2 * v) <= 1
  {
    hide InvertLowestOne;
    if v > 0 { OnesNone(2 * v); }
  }

  lemma EightProgress(a: nat, d: nat, w: nat, target: nat) returns (y: nat)
    requires Toward(a, d, 8 * w, target) && w > 0
    ensures Progress(a, d, 8 * w, target, y)
  {
    hide Toward, InPhase, InvertLowestOne, Pow2, Next, Room;
    NextEight(a, d, w, target);
    RoomOf(target <= a + 1, w);
    RoomOf(target <= a + 1, InvertLowestOne(w));
    ClearsDouble(w);
    ClearsDouble(2 * w);
    ClearsDouble(4 * w);
    y := 8 * InvertLowestOne(w);
  }

  lemma FourProgress(a: nat, d: nat, w: nat, target: nat) returns (y: nat)
    requires Toward(a, d, 8 * w + 4, target)
    ensures Progress(a, d, 8 * w + 4, target, y)
  {
    hide Toward, InPhase, InvertLowestOne, Pow2, Next, Ones, Room;
    NextFour(a, d, w, target);
    FourRest(w);
    RoomOf(target <= a + 1, w);
    if w > 0 || target <= a + 1 {
      y := 2 * (4 * w + 1) + 1;
      RoomOf(target <= a + 1, 4 * w + 1);
    } else {
      y := 0;
      RoomZero(false);
    }
  }

  lemma RoomZero(close: bool)
    ensures Room(close, 0) == 0
  {
  }

  lemma TwoProgress(a: nat, d: nat, w: nat, target: nat) returns (y: nat)
    requires Toward(a, d, 4 * w + 2, target)
    ensures Progress(a, d, 4 * w + 2, target, y)
  {
    hide Toward, InPhase, InvertLowestOne, Pow2, Next, Ones, Room;
    NextTwo(a, d, w, target);
    TwoRest(w);
    RoomOf(target <= a + 1, w);
    if InvertLowestOne(4 * w) > 0 || (target <= a + 1 && (w > 0 || a == 0)) {
      y := 2 * (2 * w) + 1;
      RoomOf(target <= a + 1, 2 * w);
    } else {
      y := 4 * w;
      RoomZero(target <= a + 1);
      RoomSingle(2 * w);
      assert 2 * (2 * w) == 4 * w;
    }
  }

  lemma PhaseProgress(a: nat, d: nat, x: nat, target: nat) returns (y: nat)
    requires Toward(a, d, x, target) && x > 0
    ensures Progress(a, d, x, target, y)
  {
    hide Toward, Progress, Pow2, Multiple, InPhase;
    var lowest, w := LowestBit(x);
    match lowest
    case 1 => y := OddProgress(a, d, w, target);
    case 2 => y := TwoProgress(a, d, w, target);
    case 4 => y := FourProgress(a, d, w, target);
    case _ => y := EightProgress(a, d, w, target);
  }

  lemma OnePass(h: nat, target: nat)
    requires target <= h <= target + 1
    ensures Passes(h, target) == h - target
  {
    hide Next;
    if h > target { assert Passes(Next(h, target), target) == 0; }
  }

  /** The low bits are cleared, then the phase's bit: at the height just below it all lower bits are ones. */
  lemma {:induction false} Phase(a: nat, d: nat, x: nat, target: nat)
    requires Toward(a, d, x, target)
    ensures Passes(a + Pow2(d) + x, target) <= Room(target <= a + 1, x) + 1 + Passes(a + Pow2(d) - 1, target)
    decreases x
  {
    hide Next, Room, Multiple, Pow2;
    if x == 0 {
      NextZero(a, d, target);
    } else {
      var y := PhaseProgress(a, d, x, target);
      if Next(a + Pow2(d) + x, target) == a + Pow2(d) + y {
        Phase(a, d, y, target);
      } else {
        OnePass(a + 1, target);
      }
    }
  }

  // ---------------------------------------------------------------- the whole walk

  function RoomMax(e: nat): nat {
    if e >= 8 then e - 3 else (e + 3) / 2
  }

  lemma LowBits(x: nat, w: nat, e: nat)
    requires x < Pow2(e)
    ensures 4 * w <= x && x >= 2 ==> e >= 2 && w < Pow2(e - 2)
    ensures 8 * w <= x && x >= 4 ==> e >= 3 && w < Pow2(e - 3)
  {
    assert e >= 2 ==> Pow2(e) == 4 * Pow2(e - 2);
    assert e >= 3 ==> Pow2(e) == 8 * Pow2(e - 3);
    assert Pow2(0) == 1 && Pow2(1) == 2 && Pow2(2) == 4;
  }

  lemma OnesEight(w: nat)
    ensures Ones(8 * w) == Ones(w) && Ones(8 * w + 3) == 2 + Ones(w) && Ones(4 * w + 1) == 1 + Ones(w)
  {
    hide Ones;
    OnesDouble(w);
    OnesDouble(2 * w);
    OnesDouble(4 * w);
    OnesOdd(2 * w);
    OnesOdd(4 * w + 1);
    assert 4 * w + 1 == 2 * (2 * w) + 1 && 8 * w + 3 == 2 * (4 * w + 1) + 1;
  }

  lemma RoomAtMost(close: bool, x: nat, e: nat)
    requires x < Pow2(e)
    ensures Room(close, x) <= RoomMax(e)
  {
    hide InvertLowestOne, Pow2, Ones, Room;
    var lowest, w := LowestBit(x);
    LowBits(x, w, e);
    RoomOf(close, w);
    OnesEight(w);
    match lowest
    case 1 => OnesAtMost(x, e);
    case 2 => OnesAtMost(w, e - 2);
    case 4 => OnesAtMost(w, e - 3);
    case _ => if w > 0 { OnesAtMost(w, e - 3); } else { OnesAtMost(w, 0); }
  }

  /** The most passes from a height whose `e` lowest bits are ones to one with the same bits above them. */
  function Slow(e: nat): nat {
    if e < 3 then e * (e + 1) / 2 else if e == 3 then 4 else Slow(e - 1) + (e - 1) / 2 + 2
  }

  lemma {:induction false} SlowIs(m: nat)
    requires m >= 1
    ensures Slow(2 * m + 1) == m * m + 4 * m - 1 && Slow(2 * m + 2) == m * m + 5 * m + 1
  {
    if m > 1 {
      SlowIs(m - 1);
      assert m * m == (m - 1) * (m - 1) + 2 * m - 1;
    }
    assert Slow(2 * m + 2) == Slow(2 * m + 1) + m + 2;
  }

  lemma SlowOnes(a: nat, e: nat, y: nat)
    requires e > 0 && Multiple(a, e) && y < Pow2(e - 1) < Pow2(e)
    ensures Passes(a + Pow2(e) - 1, a + y) <= Passes(a + Pow2(e - 1) - 1, a + y) +
      if e == 1 then 1 else (e - 1) / 2 + 2
  {
    hide Multiple, Passes, Ones;
    var x := Pow2(e - 1) - 1;
    assert Pow2(e) == 2 * Pow2(e - 1);
    Phase(a, e - 1, x, a + y);
    AllOnes(e - 1);
    assert a + Pow2(e - 1) + x == a + Pow2(e) - 1;
    if e > 1 { assert Pow2(e - 1) == 2 * Pow2(e - 2); }
  }

  lemma SlowSeven(a: nat, y: nat)
    requires Multiple(a, 3) && y < 4
    ensures Passes(a + 7, a + y) <= 4
  {
    hide Multiple, Next;
    assert Pow2(2) == 4;
    NextOdd(a, 2, 1, a + y);
    assert InvertLowestOne(2) == 0;
    if y <= 1 {
      OnePass(a + 1, a + y);
    } else {
      Phase(a, 2, 3, a + y);
      OnePass(a + 3, a + y);
      assert Room(false, 3) == 2 by { assert Ones(3) == 1 + Ones(2); }
    }
  }

  /** From all ones below bit `e`, to any height with the same bits from there up. */
  lemma {:induction false} FromOnes(a: nat, e: nat, y: nat)
    requires Multiple(a, e) && y < Pow2(e)
    ensures Passes(a + Pow2(e) - 1, a + y) <= Slow(e)
    decreases e
  {
    hide Multiple, Next, Passes;
    if e == 0 {
      OnePass(a, a);
    } else {
      var p := Pow2(e - 1);
      assert Pow2(e) == 2 * p;
      MultipleHalf(a, e);
      if y >= p {
        FromOnes(a + p, e - 1, y - p);
      } else if e == 3 {
        SlowSeven(a, y);
      } else {
        FromOnes(a, e - 1, y);
        SlowOnes(a, e, y);
      }
    }
  }

  /** The most passes between two heights below 2^d. */
  function Most(d: nat): nat {
    if d == 0 then 0 else RoomMax(d - 1) + 1 + Slow(d - 1)
  }

  lemma MostIs(d: nat)
    requires d >= 9
    ensures Most(d) == (d * d + 8 * d - 28) / 4
  {
    hide Slow;
    var m := d / 2 - 1;
    SlowIs(m);
    if d % 2 == 0 {
      assert d == 2 * m + 2 && d * d == 4 * (m * m) + 8 * m + 4;
    } else {
      assert d == 2 * m + 3 && d * d == 4 * (m * m) + 12 * m + 9;
    }
  }

  lemma {:induction false} Below(a: nat, d: nat, z: nat, y: nat)
    requires Multiple(a, d) && y <= z < Pow2(d)
    ensures Passes(a + z, a + y) <= Most(d)
    decreases d
  {
    hide Multiple, Next, Passes, Slow, Room;
    if d == 0 {
      OnePass(a, a);
    } else {
      var p := Pow2(d - 1);
      assert Pow2(d) == 2 * p;
      MultipleHalf(a, d);
      MostGrows(d);
      if y >= p {
        Below(a + p, d - 1, z - p, y - p);
      } else if z < p {
        Below(a, d - 1, z, y);
      } else {
        Phase(a, d - 1, z - p, a + y);
        RoomAtMost(y <= 1, z - p, d - 1);
        FromOnes(a, d - 1, y);
      }
    }
  }

  lemma MostGrows(d: nat)
    requires d > 0
    ensures Most(d - 1) <= Most(d)
  {
  }

  lemma {:induction false} MultipleZero(d: nat)
    ensures Multiple(0, d)
  {
    if d > 0 { MultipleZero(d - 1); }
  }

  /** The walk between any two heights below 2^d. */
  lemma WalkIsShort(h: nat, target: nat, d: nat)
    requires target <= h < Pow2(d) && d >= 9
    ensures Passes(h, target) <= (d * d + 8 * d - 28) / 4
  {
    hide Passes, Most, Multiple;
    MultipleZero(d);
    Below(0, d, h, target);
    MostIs(d);
  }

  // ---------------------------------------------------------------- the longest walk

  lemma {:induction false} OddRun(a: nat, d: nat, v: nat, target: nat)
    requires Toward(a, d, 2 * v + 1, target) && target > a + 1
    ensures Passes(a + Pow2(d) + 2 * v + 1, target) == Ones(2 * v + 1) / 2 + 1 + Passes(a + Pow2(d), target)
    decreases v
  {
    hide Multiple, InvertLowestOne, Pow2, Next;
    NextOdd(a, d, v, target);
    OnesOdd(v);
    ClearsDouble(v);
    var u := InvertLowestOne(v);
    ClearsDouble(u);
    if u > 0 {
      OnesOdd(InvertLowestOne(u));
      OddRun(a, d, InvertLowestOne(u), target);
    } else if v > 0 {
      OnesNone(v);
      NextSingle(a, d, v, target);
    }
  }

  /** A single low bit is cleared at once when the target is not close. */
  lemma NextSingle(a: nat, d: nat, v: nat, target: nat)
    requires Toward(a, d, 2 * v, target) && target > a + 1 && v > 0 && InvertLowestOne(2 * v) == 0
    ensures Next(a + Pow2(d) + 2 * v, target) == a + Pow2(d)
  {
    hide Multiple, InvertLowestOne, Pow2, Next;
    var lowest, w := LowestBit(2 * v);
    match lowest
    case 2 =>
      TwoRest(w);
      NextTwo(a, d, w, target);
    case 4 =>
      FourRest(w);
      NextFour(a, d, w, target);
    case _ => NextEight(a, d, w, target);
  }

  lemma {:induction false} EightRun(a: nat, d: nat, w: nat, target: nat)
    requires Toward(a, d, 8 * w, target)
    ensures Passes(a + Pow2(d) + 8 * w, target) == Ones(8 * w) + Passes(a + Pow2(d), target)
    decreases w
  {
    hide Multiple, InvertLowestOne, Pow2, Next;
    if w > 0 {
      NextEight(a, d, w, target);
      ClearsDouble(w);
      ClearsDouble(2 * w);
      ClearsDouble(4 * w);
      EightRun(a, d, InvertLowestOne(w), target);
    }
  }

  lemma {:induction false} OnesAttained(e: nat)
    requires e >= 3
    ensures Pow2(e) > 2 && Passes(Pow2(e) - 1, 2) == Slow(e)
  {
    hide Multiple, Next, Ones;
    var d, p := e - 1, Pow2(e - 1);
    MultipleZero(d + 1);
    Pow2Monotone(2, d);
    AllOnes(d);
    assert Pow2(e) == 2 * p && p == 2 * Pow2(d - 1);
    OddRun(0, d, Pow2(d - 1) - 1, 2);
    NextZero(0, d, 2);
    if e > 3 { OnesAttained(e - 1); } else { OnePass(3, 2); }
  }

  lemma LongWalk(e: nat, q: nat)
    requires e >= 8 && Pow2(e) == 8 * q && q == Pow2(e - 3)
    ensures Passes(Pow2(e) + 8 * (q - 1), 2) == e - 3 + 1 + Slow(e)
  {
    hide Multiple, Next, Ones, Slow, Pow2;
    MultipleZero(e + 1);
    AllOnes(e - 3);
    OnesEight(q - 1);
    OnesAttained(e);
    EightRun(0, e, q - 1, 2);
    NextZero(0, e, 2);
  }

  /** No bound on the walk between two heights below 2^d is lower. */
  lemma WalkIsLong(d: nat)
    requires d >= 9
    ensures Pow2(d) > 8 && Passes(Pow2(d) - 8, 2) == (d * d + 8 * d - 28) / 4
  {
    hide Passes, Slow;
    Pow2Add(3, d - 4);
    assert Pow2(3) == 8 && Pow2(d) == 2 * Pow2(d - 1);
    LongWalk(d - 1, Pow2(d - 4));
    MostIs(d);
  }

  /** As documented: at most 110 passes in a chain of 2^18 blocks, and that many are needed. */
  lemma DocumentedMaximum(h: nat, target: nat)
    requires target <= h < 0x4_0000
    ensures Passes(h, target) <= 110 && Passes(0x3_fff8, 2) == 110
  {
    hide Passes;
    PowerOf18();
    WalkIsShort(h, target, 18);
    WalkIsLong(18);
  }

  lemma PowerOf18()
    ensures Pow2(18) == 0x4_0000
  {
    Pow2Add(9, 9);
    assert Pow2(9) == 512 by { assert Pow2(5) == 32 && Pow2(9) == 16 * Pow2(5); }
  }
}
