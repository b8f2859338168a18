/**
The rolling bloom filter (src/bloom.cpp): each cell holds two bits, one in each word of a pair, that say in
which of three generations it was last set (0: unset). The hash is the parameter `Hash`.
*/
module RollingBloom {
  import opened Numbers

  // ---------------------------------------------------------------- 64-bit words

  function And(x: bv64, y: bv64): bv64 { x & y }
  function Or(x: bv64, y: bv64): bv64 { x | y }
  function Xor(x: bv64, y: bv64): bv64 { x ^ y }
  function Not(x: bv64): bv64 { !x }
  function Mask(b: bv6): bv64 { 1 << b }

  predicate On(word: bv64, b: bv6) { And(word, Mask(b)) != 0 }

  lemma MaskNonZero(b: bv6)
    ensures Mask(b) != 0
  {
  }

  lemma MasksApart(a: bv6, b: bv6)
    requires a != b
    ensures And(Mask(a), Mask(b)) == 0
  {
  }

  lemma MaskHits(word: bv64, b: bv6)
    ensures And(word, Mask(b)) == 0 || And(word, Mask(b)) == Mask(b)
  {
  }

  lemma AndAnd(x: bv64, y: bv64, m: bv64)
    ensures And(And(x, y), m) == And(And(x, m), And(y, m))
  {
  }

  lemma AndIs(x: bv64, y: bv64)
    ensures And(x, y) == x & y
  {
  }

  lemma OrIs(x: bv64, y: bv64)
    ensures Or(x, y) == x | y
  {
  }

  lemma XorIs(x: bv64, y: bv64)
    ensures Xor(x, y) == x ^ y
  {
  }

  lemma OrAndBits(x: bv64, y: bv64, m: bv64)
    ensures (x | y) & m == (x & m) | (y & m)
  {
  }

  lemma XorAndBits(x: bv64, y: bv64, m: bv64)
    ensures (x ^ y) & m == (x & m) ^ (y & m)
  {
  }

  lemma OrAnd(x: bv64, y: bv64, m: bv64)
    ensures And(Or(x, y), m) == Or(And(x, m), And(y, m))
  {
    hide And, Or;
    OrAndBits(x, y, m);
    OrIs(x, y);
    AndIs(x, m);
    AndIs(y, m);
    AndIs(x | y, m);
    OrIs(x & m, y & m);
  }

  lemma XorAnd(x: bv64, y: bv64, m: bv64)
    ensures And(Xor(x, y), m) == Xor(And(x, m), And(y, m))
  {
    hide And, Xor;
    XorAndBits(x, y, m);
    XorIs(x, y);
    AndIs(x, m);
    AndIs(y, m);
    AndIs(x ^ y, m);
    XorIs(x & m, y & m);
  }

  lemma NotAnd(m: bv64, n: bv64)
    ensures And(Not(m), m) == 0 && (And(m, n) == 0 ==> And(Not(m), n) == n)
  {
  }

  lemma Constants(m: bv64)
    ensures Xor(m, m) == 0 && Xor(m, 0) == m && Xor(0, m) == m
    ensures And(m, m) == m && And(m, 0) == 0 && And(0, m) == 0 && And(Not(0), m) == m
    ensures Or(m, m) == m && Or(m, 0) == m && Or(0, m) == m
  {
  }

  /** And, on the bit of a mask. */
  lemma AndOn(x: bv64, y: bv64, b: bv6)
    ensures On(And(x, y), b) <==> On(x, b) && On(y, b)
  {
    hide And, Mask;
    MaskNonZero(b);
    AndAnd(x, y, Mask(b));
    MaskHits(x, b);
    MaskHits(y, b);
    Constants(Mask(b));
    Constants(0);
  }

  lemma OrOn(x: bv64, y: bv64, b: bv6)
    ensures On(Or(x, y), b) <==> On(x, b) || On(y, b)
  {
    hide And, Or, Mask;
    MaskNonZero(b);
    OrAnd(x, y, Mask(b));
    MaskHits(x, b);
    MaskHits(y, b);
    Constants(Mask(b));
    Constants(0);
  }

  lemma XorOn(x: bv64, y: bv64, b: bv6)
    ensures On(Xor(x, y), b) <==> (On(x, b) <==> !On(y, b))
  {
    hide And, Xor, Mask;
    MaskNonZero(b);
    XorAnd(x, y, Mask(b));
    MaskHits(x, b);
    MaskHits(y, b);
    Constants(Mask(b));
    Constants(0);
  }

  lemma NotMaskOn(b: bv6, c: bv6)
    ensures On(Not(Mask(b)), c) <==> c != b
    ensures On(Mask(b), c) <==> c == b
  {
    hide And, Not, Mask;
    MaskNonZero(b);
    MaskNonZero(c);
    if b != c { MasksApart(b, c); }
    NotAnd(Mask(b), Mask(c));
    Constants(Mask(b));
  }

  lemma ConstantOn(b: bv6)
    ensures !On(0, b) && On(Not(0), b)
  {
    hide And, Not, Mask;
    MaskNonZero(b);
    Constants(Mask(b));
  }

  // ---------------------------------------------------------------- the cells of a pair of words

  /** The generation of a cell: 0 to 3. */
  function Label(w1: bv64, w2: bv64, b: bv6): (g: nat)
    ensures g <= 3
  {
    (if On(w1, b) then 1 else 0) + (if On(w2, b) then 2 else 0)
  }

  /** All ones if the generation's bit is set. */
  function Spread(bit: bool): bv64 { if bit then Not(0) else 0 }

  /** Clear the cells of a generation in a pair of words. */
  function Wiped(w1: bv64, w2: bv64, g: nat): (bv64, bv64) {
    var mask := Or(Xor(w1, Spread(g % 2 == 1)), Xor(w2, Spread(g / 2 == 1)));
    (And(w1, mask), And(w2, mask))
  }

  /** One word with a cell's bit rewritten. */
  function Written(word: bv64, b: bv6, bit: bool): bv64 {
    Or(And(word, Not(Mask(b))), if bit then Mask(b) else 0)
  }

  lemma WrittenIs(word: bv64, b: bv6, bit: bool, c: bv6)
    ensures On(Written(word, b, bit), c) <==> if c == b then bit else On(word, c)
  {
    hide And, Or, Not, Mask, On;
    OrOn(And(word, Not(Mask(b))), if bit then Mask(b) else 0, c);
    AndOn(word, Not(Mask(b)), c);
    NotMaskOn(b, c);
    ConstantOn(c);
  }

  lemma WipedIs(w1: bv64, w2: bv64, g: nat, b: bv6)
    requires 1 <= g <= 3
    ensures var (v1, v2) := Wiped(w1, w2, g);
      Label(v1, v2, b) == if Label(w1, w2, b) == g then 0 else Label(w1, w2, b)
  {
    hide And, Or, Xor, Not, Mask, On;
    var s1, s2 := Spread(g % 2 == 1), Spread(g / 2 == 1);
    var mask := Or(Xor(w1, s1), Xor(w2, s2));
    OrOn(Xor(w1, s1), Xor(w2, s2), b);
    XorOn(w1, s1, b);
    XorOn(w2, s2, b);
    AndOn(w1, mask, b);
    AndOn(w2, mask, b);
    ConstantOn(b);
  }

  // ---------------------------------------------------------------- the filter

  type Key = seq<bv8>

  /** The hash of a key under a hash number and a tweak. */
  type Hash = (nat, nat, Key) -> bv32

  datatype Filter = Filter(per: nat, cur: nat, gen: nat, nHashFuncs: nat, tweak: nat, data: seq<bv64>)

  predicate Shape(data: seq<bv64>) {
    |data| > 0 && |data| % 2 == 0
  }

  /** A pair of words, by its first, and a bit in it. */
  datatype Cell = Cell(w: nat, b: bv6)

  function CellOf(x: bv32, size: nat): (c: Cell)
    requires size > 0 && size % 2 == 0
    ensures c.w % 2 == 0 && c.w + 1 < size
  {
    Cell(PairOf(WordNo(x) % size, size), BitNo(x))
  }

  /** A hash gives a bit by its six lowest and a word by the others. */
  function BitNo(x: bv32): bv6 { (x & 0x3F) as bv6 }
  function WordNo(x: bv32): nat { (x >> 6) as nat }

  /** The first word of the pair that a word belongs to. */
  function PairOf(pos: nat, size: nat): (w: nat)
    requires pos < size && size % 2 == 0
    ensures w % 2 == 0 && w + 1 < size && w <= pos <= w + 1
  {
    pos - pos % 2
  }

  function LabelAt(data: seq<bv64>, c: Cell): (g: nat)
    requires c.w + 1 < |data|
    ensures g <= 3
  {
    Label(data[c.w], data[c.w + 1], c.b)
  }

  function Mark(data: seq<bv64>, c: Cell, g: nat): (r: seq<bv64>)
    requires c.w + 1 < |data|
    ensures |r| == |data|
  {
    data[c.w := Written(data[c.w], c.b, g % 2 == 1)][c.w + 1 := Written(data[c.w + 1], c.b, g / 2 == 1)]
  }

  lemma MarkIs(data: seq<bv64>, c: Cell, g: nat, d: Cell)
    requires c.w + 1 < |data| && d.w + 1 < |data| && c.w % 2 == 0 && d.w % 2 == 0 && 1 <= g <= 3
    ensures LabelAt(Mark(data, c, g), d) == if d == c then g else LabelAt(data, d)
  {
    hide On, Written;
    if d.w == c.w {
      WrittenIs(data[c.w], c.b, g % 2 == 1, d.b);
      WrittenIs(data[c.w + 1], c.b, g / 2 == 1, d.b);
    }
  }

  /** The first `p` words with a generation wiped. */
  function Wipe(data: seq<bv64>, g: nat, p: nat): (r: seq<bv64>)
    requires p <= |data| && p % 2 == 0
    ensures |r| == |data|
  {
    if p == 0 then data else
      var prev := Wipe(data, g, p - 2);
      var (v1, v2) := Wiped(prev[p - 2], prev[p - 1], g);
      prev[p - 2 := v1][p - 1 := v2]
  }

  lemma {:induction false} WipeRest(data: seq<bv64>, g: nat, p: nat)
    requires p <= |data| && p % 2 == 0
    ensures forall k :: p <= k < |data| ==> Wipe(data, g, p)[k] == data[k]
  {
    hide Wiped;
    if p > 0 { WipeRest(data, g, p - 2); }
  }

  lemma {:induction false} WipeIs(data: seq<bv64>, g: nat, p: nat, c: Cell)
    requires p <= |data| && p % 2 == 0 && c.w % 2 == 0 && c.w + 1 < |data| && 1 <= g <= 3
    ensures LabelAt(Wipe(data, g, p), c) ==
      if c.w < p && LabelAt(data, c) == g then 0 else LabelAt(data, c)
  {
    hide Label, Wiped;
    if p > 0 {
      WipeIs(data, g, p - 2, c);
      if c.w == p - 2 {
        WipeRest(data, g, p - 2);
        WipedIs(data[c.w], data[c.w + 1], g, c.b);
      }
    }
  }

  function CellN(h: Hash, f: Filter, key: Key, n: nat): (c: Cell)
    requires Shape(f.data)
    ensures c.w % 2 == 0 && c.w + 1 < |f.data|
  {
    CellOf(h(n, f.tweak, key), |f.data|)
  }

  /** The filter with the first `n` cells of a key marked. */
  function MarkKey(h: Hash, f: Filter, key: Key, n: nat): (r: Filter)
    requires Shape(f.data)
    ensures |r.data| == |f.data| && r == f.(data := r.data)
  {
    if n == 0 then f else
      var prev := MarkKey(h, f, key, n - 1);
      prev.(data := Mark(prev.data, CellN(h, f, key, n - 1), f.gen))
  }

  /** Start a new generation, forgetting the one whose label it takes. */
  function Roll(f: Filter): (r: Filter)
    requires Shape(f.data)
    ensures |r.data| == |f.data|
  {
    var gen := if f.gen + 1 == 4 then 1 else f.gen + 1;
    f.(cur := 0, gen := gen, data := Wipe(f.data, gen, |f.data|))
  }

  function Insert(h: Hash, f: Filter, key: Key): (r: Filter)
    requires Shape(f.data)
    ensures |r.data| == |f.data|
  {
    var f1 := if f.cur == f.per then Roll(f) else f;
    MarkKey(h, f1.(cur := f1.cur + 1), key, f.nHashFuncs)
  }

  ghost predicate Contains(h: Hash, f: Filter, key: Key)
    requires Shape(f.data)
  {
    forall n: nat :: n < f.nHashFuncs ==> LabelAt(f.data, CellN(h, f, key, n)) != 0
  }

  // ---------------------------------------------------------------- what the filter remembers

  /** Every cell of the key carries one of the labels. */
  ghost predicate Labelled(h: Hash, f: Filter, key: Key, labels: set<nat>)
    requires Shape(f.data)
  {
    forall n: nat :: n < f.nHashFuncs ==> LabelAt(f.data, CellN(h, f, key, n)) in labels
  }

  function Before(g: nat): nat { if g == 1 then 3 else if g == 0 then 0 else g - 1 }

  /** The keys of the last three generations, and those before. */
  datatype Recent = Recent(forgotten: seq<Key>, older: seq<Key>, prev: seq<Key>, now: seq<Key>)

  ghost predicate Remembers(h: Hash, f: Filter, r: Recent) {
    && Shape(f.data) && 1 <= f.gen <= 3
    && (forall k :: k in r.now ==> Labelled(h, f, k, {f.gen}))
    && (forall k :: k in r.prev ==> Labelled(h, f, k, {f.gen, Before(f.gen)}))
    && (forall k :: k in r.older ==> Labelled(h, f, k, {1, 2, 3}))
  }

  lemma RollLabelled(h: Hash, f: Filter, key: Key, labels: set<nat>)
    requires Shape(f.data) && 1 <= f.gen <= 3 && Labelled(h, f, key, labels) && Roll(f).gen !in labels
    ensures Labelled(h, Roll(f), key, labels)
  {
    hide LabelAt, Wipe;
    var f' := Roll(f);
    forall n: nat | n < f.nHashFuncs ensures LabelAt(f'.data, CellN(h, f', key, n)) in labels {
      assert CellN(h, f', key, n) == CellN(h, f, key, n);
      WipeIs(f.data, f'.gen, |f.data|, CellN(h, f, key, n));
    }
  }

  lemma {:induction false} MarkKeyIs(h: Hash, f: Filter, key: Key, n: nat, c: Cell)
    requires Shape(f.data) && 1 <= f.gen <= 3 && c.w % 2 == 0 && c.w + 1 < |f.data|
    ensures LabelAt(MarkKey(h, f, key, n).data, c) == f.gen ||
      LabelAt(MarkKey(h, f, key, n).data, c) == LabelAt(f.data, c)
    ensures forall i: nat :: i < n && CellN(h, f, key, i) == c ==> LabelAt(MarkKey(h, f, key, n).data, c) == f.gen
    ensures LabelAt(MarkKey(h, f, key, n).data, c) == LabelAt(f.data, c) ||
      exists i: nat :: i < n && CellN(h, f, key, i) == c
  {
    hide LabelAt, Mark;
    if n > 0 {
      MarkKeyIs(h, f, key, n - 1, c);
      MarkIs(MarkKey(h, f, key, n - 1).data, CellN(h, f, key, n - 1), f.gen, c);
    }
  }

  /** Marking one key leaves other keys with their labels or the current one, and gives the key the current one. */
  lemma MarkKeyLabelled(h: Hash, f: Filter, key: Key, other: Key, labels: set<nat>)
    requires Shape(f.data) && 1 <= f.gen <= 3
    ensures Labelled(h, MarkKey(h, f, key, f.nHashFuncs), key, {f.gen})
    ensures Labelled(h, f, other, labels) ==> Labelled(h, MarkKey(h, f, key, f.nHashFuncs), other, labels + {f.gen})
  {
    hide LabelAt, MarkKey;
    var f' := MarkKey(h, f, key, f.nHashFuncs);
    forall n: nat | n < f.nHashFuncs ensures LabelAt(f'.data, CellN(h, f', key, n)) in {f.gen} {
      MarkKeyIs(h, f, key, f.nHashFuncs, CellN(h, f, key, n));
    }
    if Labelled(h, f, other, labels) {
      forall n: nat | n < f.nHashFuncs ensures LabelAt(f'.data, CellN(h, f', other, n)) in labels + {f.gen} {
        MarkKeyIs(h, f, key, f.nHashFuncs, CellN(h, f, other, n));
      }
    }
  }

  lemma RollRemembers(h: Hash, f: Filter, r: Recent)
    requires Remembers(h, f, r)
    ensures Remembers(h, Roll(f), Recent(r.forgotten + r.older, r.prev, r.now, []))
  {
    hide Labelled, Wipe;
    var f' := Roll(f);
    forall k | k in r.now ensures Labelled(h, f', k, {f'.gen, Before(f'.gen)}) {
      RollLabelled(h, f, k, {f.gen});
      LabelledMore(h, f', k, {f.gen}, {f'.gen, Before(f'.gen)});
    }
    forall k | k in r.prev ensures Labelled(h, f', k, {1, 2, 3}) {
      RollLabelled(h, f, k, {f.gen, Before(f.gen)});
      LabelledMore(h, f', k, {f.gen, Before(f.gen)}, {1, 2, 3});
    }
  }

  lemma LabelledMore(h: Hash, f: Filter, key: Key, labels: set<nat>, more: set<nat>)
    requires Shape(f.data) && Labelled(h, f, key, labels) && labels <= more
    ensures Labelled(h, f, key, more)
  {
  }

  lemma MarkRemembers(h: Hash, f: Filter, r: Recent, key: Key)
    requires Remembers(h, f, r)
    ensures Remembers(h, MarkKey(h, f, key, f.nHashFuncs), r.(now := r.now + [key]))
  {
    hide Labelled, MarkKey;
    var f' := MarkKey(h, f, key, f.nHashFuncs);
    MarkKeyLabelled(h, f, key, key, {});
    forall k | k in r.now ensures Labelled(h, f', k, {f'.gen}) {
      MarkKeyLabelled(h, f, key, k, {f.gen});
      assert {f.gen} + {f.gen} == {f.gen};
    }
    forall k | k in r.prev ensures Labelled(h, f', k, {f'.gen, Before(f'.gen)}) {
      MarkKeyLabelled(h, f, key, k, {f.gen, Before(f.gen)});
      assert {f.gen, Before(f.gen)} + {f.gen} == {f.gen, Before(f.gen)};
    }
    forall k | k in r.older ensures Labelled(h, f', k, {1, 2, 3}) {
      MarkKeyLabelled(h, f, key, k, {1, 2, 3});
      assert {1, 2, 3} + {f.gen} == {1, 2, 3};
    }
  }

  // ---------------------------------------------------------------- and nothing else

  /** Some key of a list has the cell. */
  ghost predicate HitBy(h: Hash, f: Filter, keys: seq<Key>, c: Cell)
    requires Shape(f.data)
  {
    exists k, n: nat :: k in keys && n < f.nHashFuncs && CellN(h, f, k, n) == c
  }

  /** A set cell belongs to a key of the generation it is labelled with. */
  ghost predicate CellExplained(h: Hash, f: Filter, r: Recent, c: Cell)
    requires Shape(f.data) && c.w + 1 < |f.data|
  {
    var g := LabelAt(f.data, c);
    && (g == f.gen ==> HitBy(h, f, r.now, c))
    && (g == Before(f.gen) ==> HitBy(h, f, r.prev, c))
    && (g == Before(Before(f.gen)) ==> HitBy(h, f, r.older, c))
  }

  ghost predicate Explained(h: Hash, f: Filter, r: Recent) {
    && Shape(f.data) && 1 <= f.gen <= 3
    && forall c: Cell :: c.w % 2 == 0 && c.w + 1 < |f.data| ==> CellExplained(h, f, r, c)
  }

  lemma SameCells(h: Hash, f: Filter, f': Filter, keys: seq<Key>, c: Cell)
    requires Shape(f.data) && Shape(f'.data) && |f'.data| == |f.data| && f'.tweak == f.tweak
    requires f'.nHashFuncs == f.nHashFuncs
    requires HitBy(h, f, keys, c)
    ensures HitBy(h, f', keys, c)
  {
    var k, n: nat :| k in keys && n < f.nHashFuncs && CellN(h, f, k, n) == c;
    assert CellN(h, f', k, n) == c;
  }

  lemma RollExplained(h: Hash, f: Filter, r: Recent)
    requires Explained(h, f, r)
    ensures Explained(h, Roll(f), Recent(r.forgotten + r.older, r.prev, r.now, []))
  {
    hide LabelAt, Wipe, HitBy;
    var f', r' := Roll(f), Recent(r.forgotten + r.older, r.prev, r.now, []);
    forall c: Cell | c.w % 2 == 0 && c.w + 1 < |f'.data| ensures CellExplained(h, f', r', c) {
      assert CellExplained(h, f, r, c);
      WipeIs(f.data, f'.gen, |f.data|, c);
      if HitBy(h, f, r.now, c) { SameCells(h, f, f', r.now, c); }
      if HitBy(h, f, r.prev, c) { SameCells(h, f, f', r.prev, c); }
    }
  }

  lemma MarkExplained(h: Hash, f: Filter, r: Recent, key: Key)
    requires Explained(h, f, r)
    ensures Explained(h, MarkKey(h, f, key, f.nHashFuncs), r.(now := r.now + [key]))
  {
    hide LabelAt, MarkKey, HitBy;
    var f', r' := MarkKey(h, f, key, f.nHashFuncs), r.(now := r.now + [key]);
    forall c: Cell | c.w % 2 == 0 && c.w + 1 < |f'.data| ensures CellExplained(h, f', r', c) {
      assert CellExplained(h, f, r, c);
      MarkKeyIs(h, f, key, f.nHashFuncs, c);
      if LabelAt(f'.data, c) == f.gen { MarkHits(h, f, f', r, key, c); }
      if HitBy(h, f, r.prev, c) { SameCells(h, f, f', r.prev, c); }
      if HitBy(h, f, r.older, c) { SameCells(h, f, f', r.older, c); }
    }
  }

  lemma MarkHits(h: Hash, f: Filter, f': Filter, r: Recent, key: Key, c: Cell)
    requires Shape(f.data) && Shape(f'.data) && |f'.data| == |f.data| && f'.tweak == f.tweak
    requires f'.nHashFuncs == f.nHashFuncs
    requires HitBy(h, f, r.now, c) || exists i: nat :: i < f.nHashFuncs && CellN(h, f, key, i) == c
    ensures HitBy(h, f', r.now + [key], c)
  {
    if HitBy(h, f, r.now, c) {
      var k, n: nat :| k in r.now && n < f.nHashFuncs && CellN(h, f, k, n) == c;
      assert k in r.now + [key] && CellN(h, f', k, n) == c;
    } else {
      var i: nat :| i < f.nHashFuncs && CellN(h, f, key, i) == c;
      assert key in r.now + [key] && CellN(h, f', key, i) == c;
    }
  }

  lemma StartExplained(h: Hash, f: Filter, r: Recent)
    requires Cleared(f)
    ensures Explained(h, f, r)
  {
    hide On, HitBy;
    forall c: Cell | c.w % 2 == 0 && c.w + 1 < |f.data| ensures CellExplained(h, f, r, c) { ConstantOn(c.b); }
  }

  lemma CountExplained(h: Hash, f: Filter, r: Recent)
    requires Explained(h, f, r)
    ensures Explained(h, f.(cur := f.cur + 1), r)
  {
    hide LabelAt, HitBy;
    var f' := f.(cur := f.cur + 1);
    forall c: Cell | c.w % 2 == 0 && c.w + 1 < |f'.data| ensures CellExplained(h, f', r, c) {
      assert CellExplained(h, f, r, c);
      if HitBy(h, f, r.now, c) { SameCells(h, f, f', r.now, c); }
      if HitBy(h, f, r.prev, c) { SameCells(h, f, f', r.prev, c); }
      if HitBy(h, f, r.older, c) { SameCells(h, f, f', r.older, c); }
    }
  }

  // ---------------------------------------------------------------- whole runs

  ghost predicate Cleared(f: Filter) {
    Shape(f.data) && f.cur == 0 && f.gen == 1 && forall k :: 0 <= k < |f.data| ==> f.data[k] == 0
  }

  /** The filter after inserting the first `n` keys of a log. */
  function Run(h: Hash, f: Filter, log: seq<Key>, n: nat): (r: Filter)
    requires Shape(f.data) && n <= |log|
    ensures |r.data| == |f.data|
  {
    if n == 0 then f else Insert(h, Run(h, f, log, n - 1), log[n - 1])
  }

  /** The log splits into forgotten and recent keys; unless all are recent, two full generations precede the last. */
  ghost predicate EndsWith(log: seq<Key>, n: nat, per: nat, cur: nat, r: Recent)
    requires n <= |log|
  {
    && r.forgotten + r.older + r.prev + r.now == log[..n] && |r.now| == cur
    && ((r.forgotten == [] && r.older == [] && (r.prev == [] || |r.prev| == per)) ||
        (|r.older| == per && |r.prev| == per))
  }

  lemma RollEnds(log: seq<Key>, n: nat, per: nat, r: Recent)
    requires n <= |log| && EndsWith(log, n, per, per, r)
    ensures EndsWith(log, n, per, 0, Recent(r.forgotten + r.older, r.prev, r.now, []))
  {
  }

  lemma AddEnds(log: seq<Key>, n: nat, per: nat, cur: nat, r: Recent)
    requires n < |log| && EndsWith(log, n, per, cur, r)
    ensures EndsWith(log, n + 1, per, cur + 1, r.(now := r.now + [log[n]]))
  {
    assert log[..n + 1] == log[..n] + [log[n]];
  }

  lemma StartRemembers(h: Hash, f: Filter, log: seq<Key>)
    requires Cleared(f)
    ensures Remembers(h, f, Recent([], [], [], [])) && EndsWith(log, 0, f.per, 0, Recent([], [], [], []))
  {
  }

  /** One insert. */
  lemma InsertRemembers(h: Hash, f: Filter, r: Recent, log: seq<Key>, n: nat) returns (r': Recent)
    requires n < |log| && Remembers(h, f, r) && Explained(h, f, r) && EndsWith(log, n, f.per, f.cur, r)
    ensures Shape(f.data)
    ensures var f' := Insert(h, f, log[n]);
      && Remembers(h, f', r') && Explained(h, f', r') && EndsWith(log, n + 1, f'.per, f'.cur, r')
      && f'.per == f.per && f'.nHashFuncs == f.nHashFuncs && f'.cur >= 1
  {
    hide Remembers, EndsWith, MarkKey, Wipe, Explained;
    r' := r;
    CountOnly(h, f, r);
    var f1 := f;
    if f.cur == f.per {
      RollEnds(log, n, f.per, r);
      RollRemembers(h, f, r);
      RollExplained(h, f, r);
      r', f1 := Recent(r.forgotten + r.older, r.prev, r.now, []), Roll(f);
    }
    AddEnds(log, n, f.per, f1.cur, r');
    CountOnly(h, f1, r');
    CountExplained(h, f1, r');
    MarkRemembers(h, f1.(cur := f1.cur + 1), r', log[n]);
    MarkExplained(h, f1.(cur := f1.cur + 1), r', log[n]);
    r' := r'.(now := r'.now + [log[n]]);
  }

  lemma {:induction false} RunRemembers(h: Hash, f: Filter, log: seq<Key>, n: nat) returns (r: Recent)
    requires Cleared(f) && n <= |log|
    ensures var f' := Run(h, f, log, n);
      && Remembers(h, f', r) && Explained(h, f', r) && EndsWith(log, n, f.per, f'.cur, r)
      && f'.per == f.per && f'.nHashFuncs == f.nHashFuncs && (n > 0 ==> f'.cur >= 1)
  {
    hide Remembers, EndsWith, Insert, Explained;
    if n == 0 {
      r := Recent([], [], [], []);
      StartRemembers(h, f, log);
      StartExplained(h, f, r);
    } else {
      r := RunRemembers(h, f, log, n - 1);
      r := InsertRemembers(h, Run(h, f, log, n - 1), r, log, n - 1);
    }
  }

  lemma CountOnly(h: Hash, f: Filter, r: Recent)
    requires Remembers(h, f, r)
    ensures Shape(f.data) && Remembers(h, f.(cur := f.cur + 1), r)
  {
    hide LabelAt;
    var f' := f.(cur := f.cur + 1);
    forall k, labels | Labelled(h, f, k, labels) ensures Labelled(h, f', k, labels) {
      forall n: nat | n < f.nHashFuncs ensures LabelAt(f'.data, CellN(h, f', k, n)) in labels {
        assert CellN(h, f', k, n) == CellN(h, f, k, n);
      }
    }
  }

  lemma RememberedContained(h: Hash, f: Filter, r: Recent, key: Key)
    requires Remembers(h, f, r) && (key in r.older || key in r.prev || key in r.now)
    ensures Contains(h, f, key)
  {
    hide LabelAt;
  }

  lemma InRecent(log: seq<Key>, per: nat, cur: nat, r: Recent, i: nat)
    requires EndsWith(log, |log|, per, cur, r) && i < |log| && |log| - i <= 2 * per + cur
    ensures log[i] in r.older || log[i] in r.prev || log[i] in r.now
  {
    var x := log[i];
    assert x == log[..|log|][i] == (r.forgotten + r.older + r.prev + r.now)[i];
    assert i >= |r.forgotten|;
  }

  /** No false negatives: after any run, each of the last 2 * per + cur keys is found. */
  lemma NoFalseNegatives(h: Hash, f: Filter, log: seq<Key>, i: nat)
    requires Cleared(f) && i < |log|
    requires |log| - i <= 2 * f.per + Run(h, f, log, |log|).cur
    ensures Contains(h, Run(h, f, log, |log|), log[i])
  {
    hide Run, Remembers, EndsWith, Contains, Explained;
    var r := RunRemembers(h, f, log, |log|);
    var f' := Run(h, f, log, |log|);
    InRecent(log, f.per, f'.cur, r, i);
    RememberedContained(h, f', r, log[i]);
  }

  /** With the constructor's generation size, at least the last nElements keys are found. */
  lemma LastElements(h: Hash, f: Filter, nElements: nat, log: seq<Key>, i: nat)
    requires Cleared(f) && f.per == (nElements + 1) / 2 && i < |log| && |log| - i <= nElements
    ensures Contains(h, Run(h, f, log, |log|), log[i])
  {
    NoFalseNegatives(h, f, log, i);
  }

  lemma RecentIndex(log: seq<Key>, per: nat, cur: nat, r: Recent, key: Key)
    requires EndsWith(log, |log|, per, cur, r) && (key in r.older || key in r.prev || key in r.now)
    ensures exists i :: 0 <= i < |log| && |log| - i <= 2 * per + cur && log[i] == key
  {
    var all := r.forgotten + r.older + r.prev + r.now;
    assert log[..|log|] == log == all;
    var z := |r.forgotten|;
    if key in r.older {
      var j :| 0 <= j < |r.older| && r.older[j] == key;
      assert log[z + j] == key;
    } else if key in r.prev {
      var j :| 0 <= j < |r.prev| && r.prev[j] == key;
      assert log[z + |r.older| + j] == key;
    } else {
      var j :| 0 <= j < |r.now| && r.now[j] == key;
      assert log[z + |r.older| + |r.prev| + j] == key;
    }
  }

  lemma SomeHit(h: Hash, f: Filter, r: Recent, c: Cell)
    requires Explained(h, f, r) && c.w % 2 == 0 && c.w + 1 < |f.data| && LabelAt(f.data, c) != 0
    ensures HitBy(h, f, r.older, c) || HitBy(h, f, r.prev, c) || HitBy(h, f, r.now, c)
  {
    hide LabelAt, HitBy;
    assert CellExplained(h, f, r, c);
  }

  /** The cell was set by one of the last 2 * per + cur keys of the log. */
  ghost predicate SetByRecent(h: Hash, f: Filter, log: seq<Key>, c: Cell)
    requires Shape(f.data)
  {
    exists i, m: nat ::
      0 <= i < |log| && |log| - i <= 2 * f.per + f.cur && m < f.nHashFuncs && CellN(h, f, log[i], m) == c
  }

  lemma HitIsRecent(h: Hash, f: Filter, log: seq<Key>, r: Recent, keys: seq<Key>, c: Cell)
    requires Shape(f.data) && EndsWith(log, |log|, f.per, f.cur, r) && HitBy(h, f, keys, c)
    requires keys == r.older || keys == r.prev || keys == r.now
    ensures SetByRecent(h, f, log, c)
  {
    hide CellN, EndsWith;
    var k, m: nat :| k in keys && m < f.nHashFuncs && CellN(h, f, k, m) == c;
    RecentIndex(log, f.per, f.cur, r, k);
  }

  /** A key is found only if each of its cells was set by one of the last 2 * per + cur keys. */
  lemma FoundOnlyByRecent(h: Hash, f: Filter, log: seq<Key>, key: Key, n: nat)
    requires Cleared(f) && Contains(h, Run(h, f, log, |log|), key) && n < f.nHashFuncs
    ensures SetByRecent(h, Run(h, f, log, |log|), log, CellN(h, Run(h, f, log, |log|), key, n))
  {
    hide Run, LabelAt, Remembers, EndsWith, Explained, HitBy, SetByRecent, CellN;
    var r := RunRemembers(h, f, log, |log|);
    var f' := Run(h, f, log, |log|);
    var c := CellN(h, f', key, n);
    SomeHit(h, f', r, c);
    if HitBy(h, f', r.older, c) {
      HitIsRecent(h, f', log, r, r.older, c);
    } else if HitBy(h, f', r.prev, c) {
      HitIsRecent(h, f', log, r, r.prev, c);
    } else {
      HitIsRecent(h, f', log, r, r.now, c);
    }
  }

  /** The bit that a hash stands for is that of one of the last keys of the log. */
  ghost predicate SetBy(h: Hash, f: Filter, log: seq<Key>, last: nat, x: bv32)
    requires Shape(f.data)
  {
    exists i, m: nat :: |log| - last <= i < |log| && 0 <= i && m < f.nHashFuncs &&
      CellOf(h(m, f.tweak, log[i]), |f.data|) == CellOf(x, |f.data|)
  }

  lemma {:induction false} RunSame(h: Hash, f: Filter, log: seq<Key>, n: nat)
    requires Shape(f.data) && n <= |log|
    ensures var r := Run(h, f, log, n);
      |r.data| == |f.data| && r.tweak == f.tweak && r.nHashFuncs == f.nHashFuncs && r.per == f.per
  {
    hide Wipe, MarkKey;
    if n > 0 { RunSame(h, f, log, n - 1); }
  }

  /** How far the current generation is: it begins again after every `per` keys. */
  lemma {:induction false} GenerationIs(h: Hash, f: Filter, log: seq<Key>, n: nat)
    requires Cleared(f) && n <= |log|
    ensures var cur := Run(h, f, log, n).cur;
      cur == if n == 0 then 0 else if f.per == 0 then n else (n - 1) % f.per + 1
  {
    hide Wipe, MarkKey;
    if n > 0 {
      GenerationIs(h, f, log, n - 1);
      RunSame(h, f, log, n - 1);
      if f.per > 0 && n > 1 { NextRemainder(n - 2, f.per); }
    }
  }

  lemma NextRemainder(n: nat, d: nat)
    requires d > 0
    ensures (n + 1) % d == if n % d + 1 == d then 0 else n % d + 1
  {
    var q, r := n / d, n % d;
    Division(n, d);
    if r + 1 == d {
      assert n + 1 == (q + 1) * d;
      ModIs(n + 1, q + 1, d, 0);
    } else {
      ModIs(n + 1, q, d, r + 1);
    }
  }

  /**
  Exactly what is found: a key all of whose bits are bits of the last 2 * per + cur keys inserted. So no recent key is
  missed, and what is older than that is forgotten.
  */
  lemma FoundExactly(h: Hash, f: Filter, log: seq<Key>, key: Key)
    requires Cleared(f)
    ensures var f' := Run(h, f, log, |log|);
      Contains(h, f', key) <==>
      forall n: nat :: n < f.nHashFuncs ==> SetBy(h, f, log, 2 * f.per + f'.cur, h(n, f.tweak, key))
  {
    hide Run, LabelAt, CellOf, SetBy;
    var f' := Run(h, f, log, |log|);
    RunSame(h, f, log, |log|);
    if Contains(h, f', key) {
      forall n: nat | n < f.nHashFuncs ensures SetBy(h, f, log, 2 * f.per + f'.cur, h(n, f.tweak, key)) {
        FoundOnlyByRecent(h, f, log, key, n);
        SetRecently(h, f, f', log, h(n, f.tweak, key));
      }
    }
    if forall n: nat :: n < f.nHashFuncs ==> SetBy(h, f, log, 2 * f.per + f'.cur, h(n, f.tweak, key)) {
      forall n: nat | n < f.nHashFuncs ensures LabelAt(f'.data, CellN(h, f', key, n)) != 0 {
        SetIsSeen(h, f, log, h(n, f.tweak, key));
      }
    }
  }

  lemma SetRecently(h: Hash, f: Filter, f': Filter, log: seq<Key>, x: bv32)
    requires Shape(f.data) && Shape(f'.data) && |f'.data| == |f.data| && f'.tweak == f.tweak && f'.per == f.per
    requires f'.nHashFuncs == f.nHashFuncs && SetByRecent(h, f', log, CellOf(x, |f.data|))
    ensures SetBy(h, f, log, 2 * f.per + f'.cur, x)
  {
    hide CellOf;
  }

  lemma SetIsSeen(h: Hash, f: Filter, log: seq<Key>, x: bv32)
    requires Cleared(f) && SetBy(h, f, log, 2 * f.per + Run(h, f, log, |log|).cur, x)
    ensures |Run(h, f, log, |log|).data| == |f.data|
    ensures LabelAt(Run(h, f, log, |log|).data, CellOf(x, |f.data|)) != 0
  {
    hide Run, LabelAt, CellOf;
    var f' := Run(h, f, log, |log|);
    RunSame(h, f, log, |log|);
    var i, m: nat :| |log| - (2 * f.per + f'.cur) <= i < |log| && 0 <= i && m < f.nHashFuncs &&
      CellOf(h(m, f.tweak, log[i]), |f.data|) == CellOf(x, |f.data|);
    NoFalseNegatives(h, f, log, i);
    assert LabelAt(f'.data, CellN(h, f', log[i], m)) != 0;
  }

  lemma BitsApart(pos: bv32, b: bv32)
    requires pos < 0x400_0000 && b < 64
    ensures ((pos << 6) | b) >> 6 == pos && ((pos << 6) | b) & 0x3F == b
  {
  }

  lemma CellFrom(x: bv32, pos: nat, b: bv6, size: nat)
    requires WordNo(x) == pos < size && BitNo(x) == b && size % 2 == 0
    ensures CellOf(x, size) == Cell(pos - pos % 2, b)
  {
    hide WordNo, BitNo;
    ModIs(pos, 0, size, pos);
  }

  /** Every bit of every pair of words is reached. */
  lemma CellReached(pos: bv32, b: bv32, size: nat)
    requires pos < 0x400_0000 && b < 64 && (pos as nat) < size && size % 2 == 0
    ensures CellOf((pos << 6) | b, size) == Cell(pos as nat - pos as nat % 2, b as bv6)
  {
    hide CellOf;
    BitsApart(pos, b);
    CellFrom((pos << 6) | b, pos as nat, b as bv6, size);
  }
}
