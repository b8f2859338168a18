/**
The Merkle root of a block (src/consensus/merkle.cpp): computed leaf by leaf in constant space, it is the root of the
tree that partial Merkle trees are parts of. A list that has two complete subtrees with the same hash side by side is
reported as mutated; no two lists that are not have the same root.
*/
module MerkleRoot {
  import opened Numbers
  import opened PartialMerkle
  import opened PartialMerkleTree

  // ---------------------------------------------------------------- shifting

  /** c >> l */
  function Half(c: nat, l: nat): nat {
    if l == 0 then c else Half(c, l - 1) / 2
  }

  lemma {:induction false} HalfBounds(c: nat, l: nat)
    ensures Half(c, l) * Pow2(l) <= c < (Half(c, l) + 1) * Pow2(l)
  {
    if l > 0 {
      HalfBounds(c, l - 1);
      HalveBounds(c, Half(c, l - 1), Half(c, l), Pow2(l - 1));
    }
  }

  lemma HalveBounds(c: nat, x: nat, y: nat, p: nat)
    requires x * p <= c < (x + 1) * p && y == x / 2
    ensures y * (2 * p) <= c < (y + 1) * (2 * p)
  {
    MulMonotone(2 * y, x, p);
    MulMonotone(x + 1, 2 * y + 2, p);
    assert y * (2 * p) == (2 * y) * p && (y + 1) * (2 * p) == (2 * y + 2) * p;
  }

  /** The bit test of the source. */
  lemma HalfIs(c: nat, l: nat)
    ensures c / Pow2(l) == Half(c, l)
  {
    HalfBounds(c, l);
    QuotientIs(c, Half(c, l), Pow2(l));
  }

  /** The nodes all of whose leaves are among the first `c`. */
  lemma Complete(c: nat, l: nat, q: nat)
    ensures q < Half(c, l) <==> (q + 1) * Pow2(l) <= c
  {
    HalfBounds(c, l);
    var x, p := Half(c, l), Pow2(l);
    if q < x { MulMonotone(q + 1, x, p); } else { MulMonotone(x + 1, q + 1, p); }
  }

  lemma {:induction false} HalfWidth(n: nat, l: nat)
    ensures Half(n, l) <= Width(n, l) <= Half(n, l) + 1
  {
    if l > 0 { HalfWidth(n, l - 1); }
  }

  lemma Small(c: nat, l: nat)
    requires c < 0x1_0000_0000 && Half(c, l) > 0
    ensures l < 32
  {
    HalfBounds(c, l);
    MulMonotone(1, Half(c, l), Pow2(l));
    if l >= 32 {
      Pow2Monotone(32, l);
      Power32();
    }
  }

  lemma Power32()
    ensures Pow2(32) == 0x1_0000_0000
  {
    assert Pow2(8) == 256 by { assert Pow2(4) == 16 && Pow2(8) == 16 * Pow2(4); }
    Pow2Add(8, 8);
    Pow2Add(16, 16);
  }

  ghost predicate ClearBelow(c: nat, l: nat) {
    forall i :: 0 <= i < l ==> Half(c, i) % 2 == 0
  }

  /** All lower bits of the next number are zero. */
  ghost predicate Carries(c: nat, l: nat) { ClearBelow(c + 1, l) }

  lemma {:induction false} Carry(c: nat, l: nat)
    requires Carries(c, l)
    ensures Half(c + 1, l) == Half(c, l) + 1
  {
    if l > 0 {
      Carry(c, l - 1);
      assert Half(c + 1, l - 1) % 2 == 0;
    }
  }

  lemma {:induction false} CarryEnds(c: nat, l: nat, j: nat)
    requires Carries(c, l) && Half(c + 1, l) % 2 == 1 && l < j
    ensures Half(c + 1, j) == Half(c, j)
  {
    Carry(c, l);
    if j > l + 1 { CarryEnds(c, l, j - 1); }
  }

  // ---------------------------------------------------------------- nodes

  /** A node with two children is their pair, and one with a single child the pair of it with itself. */
  lemma NodeIs(H: PairHash, l: nat, q: nat, tx: seq<Hash>)
    requires q < Width(|tx|, l + 1)
    ensures 2 * q < Width(|tx|, l)
    ensures CalcHash(H, l + 1, q, tx) == H(CalcHash(H, l, 2 * q, tx),
      if 2 * q + 1 < Width(|tx|, l) then CalcHash(H, l, 2 * q + 1, tx) else CalcHash(H, l, 2 * q, tx))
  {
  }

  /** Two neighbours have the same hash. */
  ghost predicate EqualAt(H: PairHash, tx: seq<Hash>, j: nat, q: nat) {
    j > 0 && 2 * q + 1 < Width(|tx|, j - 1) && CalcHash(H, j - 1, 2 * q, tx) == CalcHash(H, j - 1, 2 * q + 1, tx)
  }

  /** They and all their leaves are among the first `c`, or up to a level among the first `c + 1`. */
  ghost predicate MutatedTo(H: PairHash, tx: seq<Hash>, c: nat, l: nat) {
    exists j: nat, q: nat :: EqualAt(H, tx, j, q) && q < if j <= l then Half(c + 1, j) else Half(c, j)
  }

  ghost predicate MutatedIn(H: PairHash, tx: seq<Hash>, c: nat) {
    exists j: nat, q: nat :: EqualAt(H, tx, j, q) && q < Half(c, j)
  }

  /** Two complete subtrees side by side have the same hash. */
  ghost predicate Mutated(H: PairHash, tx: seq<Hash>) {
    exists j: nat, q: nat :: EqualAt(H, tx, j, q) && (q + 1) * Pow2(j) <= |tx|
  }

  lemma MutatedIs(H: PairHash, tx: seq<Hash>)
    ensures MutatedIn(H, tx, |tx|) <==> Mutated(H, tx)
  {
    hide EqualAt, Half;
    forall j: nat, q: nat | EqualAt(H, tx, j, q) ensures q < Half(|tx|, j) <==> (q + 1) * Pow2(j) <= |tx| {
      Complete(|tx|, j, q);
    }
  }

  lemma {:induction false} NoneBefore(H: PairHash, tx: seq<Hash>)
    ensures !MutatedIn(H, tx, 0)
  {
    forall j: nat ensures Half(0, j) == 0 { HalfBounds(0, j); HalfZero(j); }
  }

  lemma {:induction false} HalfZero(j: nat)
    ensures Half(0, j) == 0
  {
    if j > 0 { HalfZero(j - 1); }
  }

  lemma MutatedStart(H: PairHash, tx: seq<Hash>, c: nat)
    ensures MutatedTo(H, tx, c, 0) <==> MutatedIn(H, tx, c)
  {
    hide Half;
    forall j: nat, q: nat | EqualAt(H, tx, j, q) ensures j > 0 {}
  }

  /** One level further there is one more node. */
  lemma MutatedNext(H: PairHash, tx: seq<Hash>, c: nat, l: nat)
    requires Carries(c, l + 1) && c < |tx|
    ensures MutatedTo(H, tx, c, l + 1) <==> MutatedTo(H, tx, c, l) || EqualAt(H, tx, l + 1, Half(c, l + 1))
  {
    hide Half, EqualAt;
    Carry(c, l + 1);
    if EqualAt(H, tx, l + 1, Half(c, l + 1)) { assert Half(c, l + 1) < Half(c + 1, l + 1); }
    if j: nat, q: nat :| EqualAt(H, tx, j, q) && q < if j <= l + 1 then Half(c + 1, j) else Half(c, j) {
      assert j != l + 1 || q == Half(c, l + 1) || q < Half(c, l + 1);
    }
    if j: nat, q: nat :| EqualAt(H, tx, j, q) && q < if j <= l then Half(c + 1, j) else Half(c, j) {
      assert q < if j <= l + 1 then Half(c + 1, j) else Half(c, j);
    }
  }

  lemma MutatedEnd(H: PairHash, tx: seq<Hash>, c: nat, l: nat)
    requires Carries(c, l) && Half(c + 1, l) % 2 == 1
    ensures MutatedTo(H, tx, c, l) <==> MutatedIn(H, tx, c + 1)
  {
    hide Half, EqualAt;
    forall j: nat | j > l ensures Half(c + 1, j) == Half(c, j) { CarryEnds(c, l, j); }
  }

  // ---------------------------------------------------------------- the computation

  /** A hash is stored for every bit of the count: that of the last complete node of its level. */
  ghost predicate Stored(H: PairHash, tx: seq<Hash>, inner: seq<Hash>, c: nat)
    requires c <= |tx|
  {
    && |inner| == 32
    && forall j: nat :: j < 32 && Half(c, j) % 2 == 1 ==>
         Half(c, j) - 1 < Width(|tx|, j) && inner[j] == CalcHash(H, j, Half(c, j) - 1, tx)
  }

  lemma StoredNext(H: PairHash, tx: seq<Hash>, inner: seq<Hash>, c: nat, l: nat, h: Hash)
    requires c < |tx| && Stored(H, tx, inner, c) && l < 32 && Carries(c, l) && Half(c + 1, l) % 2 == 1
    requires Half(c, l) < Width(|tx|, l) && h == CalcHash(H, l, Half(c, l), tx)
    ensures Stored(H, tx, inner[l := h], c + 1)
  {
    hide Half, CalcHash, Width;
    Carry(c, l);
    forall j: nat | j < 32 && Half(c + 1, j) % 2 == 1
      ensures Half(c + 1, j) - 1 < Width(|tx|, j) && inner[l := h][j] == CalcHash(H, j, Half(c + 1, j) - 1, tx)
    {
      if j > l { CarryEnds(c, l, j); }
    }
  }

  /** A node of the path that a new leaf completes. */
  lemma Combine(H: PairHash, tx: seq<Hash>, inner: seq<Hash>, c: nat, l: nat)
    requires c < |tx| && Stored(H, tx, inner, c) && l < 32 && Carries(c, l + 1)
    requires Half(c, l) < Width(|tx|, l)
    ensures var q := Half(c, l + 1);
      && q < Width(|tx|, l + 1) && Half(c, l) == 2 * q + 1 && inner[l] == CalcHash(H, l, 2 * q, tx)
      && CalcHash(H, l + 1, q, tx) == H(inner[l], CalcHash(H, l, Half(c, l), tx))
  {
    hide CalcHash;
    Carry(c, l);
    assert Half(c + 1, l) % 2 == 0;
    assert Half(c, l) % 2 == 1;
    var q := Half(c, l + 1);
    NodeIs(H, l, q, tx);
  }

  lemma CarriesOn(c: nat, l: nat)
    requires Carries(c, l) && Half(c + 1, l) % 2 == 0
    ensures Carries(c, l + 1)
  {
  }

  /** Bring one more leaf into the stored hashes. */
  method AddLeaf(H: PairHash, leaves: seq<Hash>, inner: array<Hash>, c: nat, was: bool) returns (mutated: bool)
    requires c < |leaves| <= 0x8000_0000 && inner.Length == 32 && Stored(H, leaves, inner[..], c)
    requires was <==> MutatedIn(H, leaves, c)
    modifies inner
    ensures Stored(H, leaves, inner[..], c + 1) && (mutated <==> MutatedIn(H, leaves, c + 1))
  {
    hide Half, CalcHash, Width, Stored, MutatedTo, MutatedIn, Carries, EqualAt, Pow2;
    var h, count, level := leaves[c], c + 1, 0;
    mutated := was;
    FirstLevel(H, leaves, c);
    while (count / Pow2(level)) % 2 == 0
      invariant Carries(c, level) && Half(c, level) < Width(|leaves|, level) && level < 32
      invariant h == CalcHash(H, level, Half(c, level), leaves) && (mutated <==> MutatedTo(H, leaves, c, level))
      invariant inner[..] == old(inner[..])
      decreases 32 - level
    {
      HalfIs(count, level);
      CarriesOn(c, level);
      Combine(H, leaves, inner[..], c, level);
      MutatedNext(H, leaves, c, level);
      SameMeans(H, leaves, level, Half(c, level + 1));
      assert inner[level] == inner[..][level];
      mutated := mutated || inner[level] == h;
      h := H(inner[level], h);
      level := level + 1;
      LevelFits(c, level);
    }
    HalfIs(count, level);
    StoredNext(H, leaves, inner[..], c, level, h);
    MutatedEnd(H, leaves, c, level);
    inner[level] := h;
    assert inner[..] == old(inner[..])[level := h];
  }

  lemma FirstLevel(H: PairHash, tx: seq<Hash>, c: nat)
    requires c < |tx|
    ensures Carries(c, 0) && Half(c, 0) == c < Width(|tx|, 0) && CalcHash(H, 0, c, tx) == tx[c]
    ensures MutatedTo(H, tx, c, 0) <==> MutatedIn(H, tx, c)
  {
    MutatedStart(H, tx, c);
  }

  lemma LevelFits(c: nat, l: nat)
    requires c + 1 < 0x1_0000_0000 && Carries(c, l)
    ensures l < 32
  {
    Carry(c, l);
    Small(c + 1, l);
  }

  lemma SameMeans(H: PairHash, tx: seq<Hash>, l: nat, q: nat)
    requires 2 * q + 1 < Width(|tx|, l)
    ensures EqualAt(H, tx, l + 1, q) <==> CalcHash(H, l, 2 * q, tx) == CalcHash(H, l, 2 * q + 1, tx)
  {
  }

  // ---------------------------------------------------------------- the final sweep

  /** The last node of a level is in hand. */
  ghost predicate AtLast(H: PairHash, tx: seq<Hash>, level: nat, w: nat, h: Hash) {
    && w == Width(|tx|, level) > 0 && h == CalcHash(H, level, w - 1, tx)
    && forall g :: 0 <= g < level ==> Width(|tx|, g) > 1
  }

  lemma Odd(H: PairHash, tx: seq<Hash>, level: nat, w: nat, h: Hash)
    requires AtLast(H, tx, level, w, h) && w > 1 && w % 2 == 1
    ensures AtLast(H, tx, level + 1, (w + 1) / 2, H(h, h))
  {
    hide CalcHash;
    NodeIs(H, level, (w + 1) / 2 - 1, tx);
  }

  lemma Even(H: PairHash, tx: seq<Hash>, level: nat, w: nat, h: Hash, left: Hash)
    requires AtLast(H, tx, level, w, h) && w % 2 == 0 && left == CalcHash(H, level, w - 2, tx)
    ensures AtLast(H, tx, level + 1, w / 2, H(left, h))
  {
    hide CalcHash;
    NodeIs(H, level, w / 2 - 1, tx);
  }

  /** Where the level above has one node more than there are complete ones, the one before the last is stored. */
  lemma BeforeLast(H: PairHash, tx: seq<Hash>, inner: seq<Hash>, level: nat, w: nat)
    requires Stored(H, tx, inner, |tx|) && |tx| < 0x1_0000_0000
    requires w == Width(|tx|, level) == Half(|tx|, level) + 1 && w % 2 == 0
    ensures level < 32 && |inner| == 32 && w - 2 < Width(|tx|, level) && inner[level] == CalcHash(H, level, w - 2, tx)
  {
    hide CalcHash, Width;
    Small(|tx|, level);
  }

  lemma {:induction false} NoRemainder(n: nat, l: nat)
    requires ClearBelow(n, l)
    ensures Width(n, l) == Half(n, l)
  {
    if l > 0 {
      NoRemainder(n, l - 1);
      assert Half(n, l - 1) % 2 == 0;
    }
  }

  lemma {:induction false} RootLevel(n: nat, l: nat, g: nat)
    requires Width(n, l) == 1 && g <= l && forall k :: g <= k < l ==> Width(n, k) > 1
    ensures HeightFrom(n, g) == l
    decreases l - g
  {
    if g < l { RootLevel(n, l, g + 1); }
  }

  lemma Top(H: PairHash, tx: seq<Hash>, level: nat, h: Hash)
    requires AtLast(H, tx, level, 1, h)
    ensures |tx| >= 1 && h == Root(H, tx)
  {
    hide CalcHash;
    if tx == [] { HalfWidth(0, level); HalfZero(level); NoWidth(level); }
    RootLevel(|tx|, level, 0);
  }

  lemma {:induction false} NoWidth(l: nat)
    ensures Width(0, l) == 0
  {
    if l > 0 { NoWidth(l - 1); }
  }

  /** The count stands for `w` nodes of a level. */
  ghost predicate StandsFor(count: nat, w: nat, level: nat) { count == w * Pow2(level) }

  lemma Tested(count: nat, w: nat, level: nat)
    requires StandsFor(count, w, level)
    ensures count / Pow2(level) == w
  {
    var p := Pow2(level);
    assert (w + 1) * p == w * p + p;
    QuotientIs(count, w, p);
  }

  lemma OneNode(count: nat, w: nat, level: nat)
    requires StandsFor(count, w, level)
    ensures count == Pow2(level) <==> w == 1
  {
    if w > 1 { MulStrict(1, w, Pow2(level)); }
  }

  lemma OneMore(count: nat, w: nat, level: nat)
    requires StandsFor(count, w, level)
    ensures StandsFor(count + Pow2(level), w + 1, level)
  {
  }

  lemma LevelUp(count: nat, w: nat, level: nat)
    requires StandsFor(count, w, level) && w % 2 == 0
    ensures StandsFor(count, w / 2, level + 1)
  {
    var v, p := w / 2, Pow2(level);
    assert w == 2 * v;
    assert v * (2 * p) == (2 * v) * p;
  }

  lemma FirstOdd(H: PairHash, tx: seq<Hash>, inner: seq<Hash>, level: nat)
    requires tx != [] && Stored(H, tx, inner, |tx|) && level < 32
    requires ClearBelow(|tx|, level) && Half(|tx|, level) % 2 == 1
    ensures AtLast(H, tx, level, Half(|tx|, level), inner[level])
    ensures StandsFor(|tx|, Half(|tx|, level), level)
  {
    hide CalcHash;
    var n := |tx|;
    NoRemainder(n, level);
    forall g | 0 <= g < level ensures Width(n, g) > 1 {
      NoRemainder(n, g);
      HalfPositive(n, g, level);
      assert Half(n, g) % 2 == 0;
    }
    Exact(n, level);
  }

  lemma {:induction false} HalfPositive(n: nat, g: nat, l: nat)
    requires g <= l && Half(n, l) > 0
    ensures Half(n, g) > 0
  {
    if g < l { HalfPositive(n, g, l - 1); }
  }

  lemma {:induction false} Exact(n: nat, l: nat)
    requires ClearBelow(n, l)
    ensures n == Half(n, l) * Pow2(l)
  {
    if l > 0 {
      Exact(n, l - 1);
      var x := Half(n, l - 1);
      assert x % 2 == 0;
      assert (x / 2) * (2 * Pow2(l - 1)) == ((x / 2) * 2) * Pow2(l - 1);
    }
  }

  /** Combine with the stored hashes as long as a level has an even number of nodes. */
  method Propagate(H: PairHash, leaves: seq<Hash>, inner: array<Hash>, count: nat, start: nat, h: Hash, ghost w: nat)
    returns (level: nat, root: Hash, ghost w': nat)
    requires leaves != [] && |leaves| <= 0x8000_0000 && inner.Length == 32 && Stored(H, leaves, inner[..], |leaves|)
    requires AtLast(H, leaves, start, w, h) && StandsFor(count, w, start)
    requires Width(|leaves|, start) == Half(|leaves|, start) + 1
    ensures AtLast(H, leaves, level, w', root) && StandsFor(count, w', level) && w' % 2 == 1 && w' <= w
    ensures Width(|leaves|, level) == Half(|leaves|, level) + 1
  {
    hide Half, CalcHash, Width, Stored, Pow2, AtLast, StandsFor;
    level, root, w' := start, h, w;
    LastIs(H, leaves, level, w', root);
    Tested(count, w', level);
    while (count / Pow2(level)) % 2 == 0
      invariant AtLast(H, leaves, level, w', root) && StandsFor(count, w', level) && w' <= w
      invariant w' == Width(|leaves|, level) == Half(|leaves|, level) + 1 && count / Pow2(level) == w'
      decreases w'
    {
      LevelUp(count, w', level);
      BeforeLast(H, leaves, inner[..], level, w');
      assert inner[level] == inner[..][level];
      Even(H, leaves, level, w', root, inner[level]);
      RestStays(|leaves|, level, w');
      root := H(inner[level], root);
      level := level + 1;
      w' := w' / 2;
      Tested(count, w', level);
    }
  }

  lemma LastIs(H: PairHash, tx: seq<Hash>, level: nat, w: nat, h: Hash)
    requires AtLast(H, tx, level, w, h)
    ensures w == Width(|tx|, level) > 0
  {
  }

  /** The lowest level with an odd number of nodes. */
  method LowestOdd(count: nat) returns (level: nat)
    requires 0 < count < 0x1_0000_0000
    ensures ClearBelow(count, level) && Half(count, level) % 2 == 1 && level < 32
  {
    hide Half, ClearBelow, Pow2;
    level := 0;
    ClearStart(count);
    while (count / Pow2(level)) % 2 == 0
      invariant ClearBelow(count, level) && Half(count, level) > 0 && level < 32
      decreases 32 - level
    {
      HalfIs(count, level);
      ClearMore(count, level);
      level := level + 1;
      Small(count, level);
    }
    HalfIs(count, level);
  }

  /** The sweep over the right edge of the tree; the count stays within 31 bits and one more. */
  method Sweep(H: PairHash, leaves: seq<Hash>, inner: array<Hash>) returns (root: Hash)
    requires leaves != [] && |leaves| <= 0x8000_0000 && inner.Length == 32 && Stored(H, leaves, inner[..], |leaves|)
    ensures root == Root(H, leaves)
  {
    hide Half, CalcHash, Width, Stored, ClearBelow, Pow2, AtLast, Root, StandsFor;
    var count: nat := |leaves|;
    var level := LowestOdd(count);
    FirstOdd(H, leaves, inner[..], level);
    NoRemainder(|leaves|, level);
    root := inner[level];
    ghost var w: nat := Half(|leaves|, level);
    OneNode(count, w, level);
    while count != Pow2(level)
      invariant AtLast(H, leaves, level, w, root) && w % 2 == 1 && StandsFor(count, w, level)
      invariant w == Width(|leaves|, level) && Half(|leaves|, level) <= w <= Half(|leaves|, level) + 1
      invariant count == Pow2(level) <==> w == 1
      decreases w
    {
      OneMore(count, w, level);
      Odd(H, leaves, level, w, root);
      RestRemains(|leaves|, level, w);
      root := H(root, root);
      count := count + Pow2(level);
      LevelUp(count, w + 1, level);
      CountFits(|leaves|, count, (w + 1) / 2, level + 1);
      assert count <= 0x8000_0000;
      level, root, w := Propagate(H, leaves, inner, count, level + 1, root, (w + 1) / 2);
      LastIs(H, leaves, level, w, root);
      OneNode(count, w, level);
    }
    Top(H, leaves, level, root);
  }

  lemma {:induction false} WidthMonotone(n: nat, m: nat, l: nat)
    requires n <= m
    ensures Width(n, l) <= Width(m, l)
  {
    if l > 0 { WidthMonotone(n, m, l - 1); }
  }

  lemma {:induction false} WidthOfPower(k: nat, l: nat)
    ensures Width(Pow2(k), l) == if l <= k then Pow2(k - l) else 1
  {
    if l > 0 { WidthOfPower(k, l - 1); }
  }

  /** Up to 2^31 leaves the count never needs more than 32 bits. */
  lemma CountFits(n: nat, count: nat, w: nat, level: nat)
    requires n <= 0x8000_0000 && level > 0 && Width(n, level - 1) > 1 && w == Width(n, level)
    requires StandsFor(count, w, level)
    ensures count <= 0x8000_0000
  {
    hide Width;
    Power32();
    assert Pow2(31) == 0x8000_0000 by { assert Pow2(32) == 2 * Pow2(31); }
    hide Pow2;
    WidthMonotone(n, Pow2(31), level - 1);
    WidthOfPower(31, level - 1);
    WidthMonotone(n, Pow2(31), level);
    WidthOfPower(31, level);
    Below31(level);
    MulMonotone(w, Pow2(31 - level), Pow2(level));
    Pow2Add(31 - level, level);
  }

  lemma Below31(level: nat)
    requires level > 0 && 1 < if level - 1 <= 31 then Pow2(31 - (level - 1)) else 1
    ensures level <= 31
  {
    assert Pow2(0) == 1;
  }

  lemma WidthOne(n: nat, l: nat)
    requires Width(n, l) <= 1
    ensures n <= Pow2(l)
  {
    hide Width;
    WidthFormula(n, l);
    var p, w := Pow2(l), Width(n, l);
    DivBounds(n + p - 1, p);
    MulMonotone(w + 1, 2, p);
  }

  /** With more, the sweep ends with a count of 2^32, which 32 bits do not hold: it ends with that of a whole level. */
  lemma CountOverflows(n: nat)
    requires 0x8000_0000 < n <= 0x1_0000_0000
    ensures Pow2(Height(n)) == 0x1_0000_0000
  {
    hide Width;
    Power32();
    assert Pow2(31) == 0x8000_0000 by { assert Pow2(32) == 2 * Pow2(31); }
    WidthMonotone(n, Pow2(32), 32);
    WidthOfPower(32, 32);
    forall k | 0 <= k < 32 ensures Width(n, k) > 1 {
      if Width(n, k) <= 1 {
        WidthOne(n, k);
        Pow2Monotone(k, 31);
      }
    }
    WidthPositive(n, 32);
    RootLevel(n, 32, 0);
  }

  /**
  The root and whether the list is mutated: the calculator in constant space computes the root of the tree, and reports
  exactly the lists that have two complete subtrees with the same hash side by side.
  */
  method ComputeMerkleRoot(H: PairHash, leaves: seq<Hash>) returns (root: Hash, mutated: bool)
    requires |leaves| <= 0x8000_0000
    ensures leaves == [] ==> root == 0 && !mutated
    ensures leaves != [] ==> root == Root(H, leaves) && (mutated <==> Mutated(H, leaves))
  {
    hide Half, CalcHash, Width, Stored, MutatedIn, Mutated, Root;
    if leaves == [] { return 0, false; }
    mutated := false;
    var inner := new Hash[32](_ => 0);
    var count := 0;
    NoneStored(H, leaves, inner[..]);
    NoneBefore(H, leaves);
    while count < |leaves|
      invariant count <= |leaves| && Stored(H, leaves, inner[..], count) && (mutated <==> MutatedIn(H, leaves, count))
    {
      mutated := AddLeaf(H, leaves, inner, count, mutated);
      count := count + 1;
    }
    MutatedIs(H, leaves);
    root := Sweep(H, leaves, inner);
  }

  lemma NoneStored(H: PairHash, tx: seq<Hash>, inner: seq<Hash>)
    requires |inner| == 32
    ensures Stored(H, tx, inner, 0)
  {
    hide Half;
    forall j: nat ensures Half(0, j) == 0 { HalfZero(j); }
  }

  lemma ClearStart(n: nat)
    requires n > 0
    ensures ClearBelow(n, 0) && Half(n, 0) > 0
  {
  }

  lemma ClearMore(n: nat, l: nat)
    requires ClearBelow(n, l) && Half(n, l) % 2 == 0 && Half(n, l) > 0
    ensures ClearBelow(n, l + 1) && Half(n, l + 1) > 0
  {
  }

  lemma RestRemains(n: nat, l: nat, w: nat)
    requires w == Width(n, l) && w % 2 == 1 && Half(n, l) <= w <= Half(n, l) + 1
    ensures (w + 1) / 2 == Width(n, l + 1) == Half(n, l + 1) + 1
  {
  }

  lemma RestStays(n: nat, l: nat, w: nat)
    requires w == Width(n, l) == Half(n, l) + 1 && w % 2 == 0
    ensures w / 2 == Width(n, l + 1) == Half(n, l + 1) + 1
  {
  }

  // ---------------------------------------------------------------- what the root says

  /** No leaf is the hash of a pair. */
  ghost predicate Apart(H: PairHash, tx: seq<Hash>) {
    forall i, x, y :: 0 <= i < |tx| ==> tx[i] != H(x, y)
  }

  /** Two subtrees of one height with the same hash have the same leaves, unless a list is mutated. */
  lemma {:induction false} SameLeaves(H: PairHash, a: seq<Hash>, b: seq<Hash>, h: nat, p: nat, q: nat)
    requires Injective(H) && p < Width(|a|, h) && q < Width(|b|, h) && !Mutated(H, a) && !Mutated(H, b)
    requires CalcHash(H, h, p, a) == CalcHash(H, h, q, b)
    ensures Lo(h, p) <= Hi(|a|, h, p) <= |a| && Lo(h, q) <= Hi(|b|, h, q) <= |b|
    ensures a[Lo(h, p)..Hi(|a|, h, p)] == b[Lo(h, q)..Hi(|b|, h, q)]
    decreases h, 1
  {
    hide Mutated, Lo, Hi, Width;
    LeavesNonempty(|a|, h, p);
    LeavesNonempty(|b|, h, q);
    if h == 0 {
      OneLeaf(a, p);
      OneLeaf(b, q);
    } else {
      Children(|a|, h, p);
      Children(|b|, h, q);
      if Two(|a|, h, p) && !Two(|b|, h, q) { NoTwins(H, a, h, p); }
      if Two(|b|, h, q) && !Two(|a|, h, p) { NoTwins(H, b, h, q); }
      SameLeaves(H, a, b, h - 1, 2 * p, 2 * q);
      if Two(|a|, h, p) {
        SameLeaves(H, a, b, h - 1, 2 * p + 1, 2 * q + 1);
        Joined(a, Lo(h, p), Hi(|a|, h - 1, 2 * p), Hi(|a|, h, p));
        Joined(b, Lo(h, q), Hi(|b|, h - 1, 2 * q), Hi(|b|, h, q));
      }
    }
  }

  lemma OneLeaf(a: seq<Hash>, p: nat)
    requires p < Width(|a|, 0)
    ensures p < |a| && Lo(0, p) == p && Hi(|a|, 0, p) == p + 1
    ensures a[p..p + 1] == [a[p]]
  {
  }

  lemma Joined(a: seq<Hash>, lo: nat, mid: nat, hi: nat)
    requires lo <= mid <= hi <= |a|
    ensures a[lo..hi] == a[lo..mid] + a[mid..hi]
  {
  }

  /** In a list that is not mutated no two siblings have the same hash: if they did, both would be complete. */
  lemma {:induction false} NoTwins(H: PairHash, b: seq<Hash>, h: nat, q: nat)
    requires Injective(H) && h > 0 && q < Width(|b|, h) && Two(|b|, h, q) && !Mutated(H, b)
    ensures 2 * q + 1 < Width(|b|, h - 1) && CalcHash(H, h - 1, 2 * q, b) != CalcHash(H, h - 1, 2 * q + 1, b)
    decreases h, 0
  {
    hide Lo, Hi, Width, Mutated;
    if CalcHash(H, h - 1, 2 * q, b) == CalcHash(H, h - 1, 2 * q + 1, b) {
      SameLeaves(H, b, b, h - 1, 2 * q, 2 * q + 1);
      BothComplete(b, h, q);
      Shown(H, b, h, q);
    }
  }

  lemma Shown(H: PairHash, b: seq<Hash>, h: nat, q: nat)
    requires h > 0 && 2 * q + 1 < Width(|b|, h - 1) && (q + 1) * Pow2(h) <= |b|
    requires CalcHash(H, h - 1, 2 * q, b) == CalcHash(H, h - 1, 2 * q + 1, b)
    ensures Mutated(H, b)
  {
    assert EqualAt(H, b, h, q);
  }

  lemma BothComplete(b: seq<Hash>, h: nat, q: nat)
    requires h > 0 && 2 * q + 1 < Width(|b|, h - 1)
    requires Hi(|b|, h - 1, 2 * q) - Lo(h - 1, 2 * q) == Hi(|b|, h - 1, 2 * q + 1) - Lo(h - 1, 2 * q + 1)
    ensures (q + 1) * Pow2(h) <= |b|
  {
    hide Width, Lo, Hi;
    var p := Pow2(h - 1);
    LeafFormula(|b|, h - 1, 2 * q);
    LeafFormula(|b|, h - 1, 2 * q + 1);
    LeavesNonempty(|b|, h - 1, 2 * q + 1);
    assert (2 * q + 1) * p == 2 * q * p + p && (2 * q + 2) * p == (2 * q + 1) * p + p;
    assert (q + 1) * (2 * p) == (2 * q + 2) * p;
    assert 2 * q + 1 + 1 == 2 * q + 2;
  }

  /** Trees with the same root have the same height, as no leaf looks like a node. */
  lemma {:induction false} SameHeight(H: PairHash, a: seq<Hash>, b: seq<Hash>, g: nat, h: nat)
    requires Injective(H) && Apart(H, a) && Apart(H, b) && 0 < Width(|a|, g) && 0 < Width(|b|, h)
    requires CalcHash(H, g, 0, a) == CalcHash(H, h, 0, b)
    ensures g == h
  {
    if g > 0 && h > 0 { SameHeight(H, a, b, g - 1, h - 1); }
  }

  /** The root commits to the list: two lists that are not mutated and have the same root are the same. */
  lemma RootCommits(H: PairHash, a: seq<Hash>, b: seq<Hash>)
    requires Injective(H) && a != [] && b != [] && Apart(H, a) && Apart(H, b)
    requires !Mutated(H, a) && !Mutated(H, b) && Root(H, a) == Root(H, b)
    ensures a == b
  {
    hide Injective, Apart, Mutated, CalcHash;
    SameHeight(H, a, b, Height(|a|), Height(|b|));
    SameLeaves(H, a, b, Height(|a|), 0, 0);
    RootLeaves(|a|);
    RootLeaves(|b|);
    assert a[0..|a|] == a && b[0..|b|] == b;
  }

  /** Mutated lists do occur: three leaves have the root of the same with the last one twice. */
  lemma RepeatedLast(H: PairHash, x: Hash, y: Hash, z: Hash)
    ensures Root(H, [x, y, z]) == Root(H, [x, y, z, z]) && Mutated(H, [x, y, z, z])
  {
    var a, b := [x, y, z], [x, y, z, z];
    assert Width(3, 1) == 2 && Width(3, 2) == 1 && Width(4, 1) == 2 && Width(4, 2) == 1;
    RootLevel(3, 2, 0);
    RootLevel(4, 2, 0);
    assert CalcHash(H, 1, 0, a) == H(x, y) == CalcHash(H, 1, 0, b);
    assert CalcHash(H, 1, 1, a) == H(z, z) == CalcHash(H, 1, 1, b);
    assert EqualAt(H, b, 1, 1) && (1 + 1) * Pow2(1) <= |b|;
  }
}
