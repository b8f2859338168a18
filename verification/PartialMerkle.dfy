/**
Partial Merkle trees (src/merkleblock.cpp, src/merkleblock.h; BIP 37): a subset of a block's
transaction ids with just enough of the hash tree to recompute the root. Pair hashing is the
parameter `H`; the theorems that need it assume it injective.
*/
module PartialMerkle {
  type Hash = nat

  type PairHash = (Hash, Hash) -> Hash

  ghost predicate Injective(H: PairHash) {
    forall a, b, c, d :: H(a, b) == H(c, d) ==> a == c && b == d
  }

  predicate Distinct(tx: seq<Hash>) {
    forall i, j :: 0 <= i < j < |tx| ==> tx[i] != tx[j]
  }

  // ---------------------------------------------------------------- the shape of the tree

  /** The number of nodes at a height: each level halves the one below, rounding up. */
  function Width(n: nat, h: nat): nat {
    if h == 0 then n else (Width(n, h - 1) + 1) / 2
  }

  function HeightFrom(n: nat, h: nat): (r: nat)
    ensures r >= h && Width(n, r) <= 1
    ensures n > 0 && Width(n, h) > 0 ==> Width(n, r) == 1
    decreases Width(n, h)
  {
    if Width(n, h) <= 1 then h else HeightFrom(n, h + 1)
  }

  /** The first height with at most one node. */
  function Height(n: nat): (r: nat)
    ensures n > 0 ==> Width(n, r) == 1
  {
    HeightFrom(n, 0)
  }

  // ---------------------------------------------------------------- the full tree

  function CalcHash(H: PairHash, h: nat, pos: nat, tx: seq<Hash>): Hash
    requires pos < Width(|tx|, h)
    decreases h
  {
    if h == 0 then tx[pos] else
      var left := CalcHash(H, h - 1, 2 * pos, tx);
      var right := if Two(|tx|, h, pos) then CalcHash(H, h - 1, 2 * pos + 1, tx) else left;
      H(left, right)
  }

  function Root(H: PairHash, tx: seq<Hash>): Hash
    requires |tx| >= 1
  {
    CalcHash(H, Height(|tx|), 0, tx)
  }

  /** With distinct ids and injective hashing no two nodes of a level share a hash. */
  lemma {:induction false} NodesDiffer(H: PairHash, h: nat, p: nat, q: nat, tx: seq<Hash>)
    requires Injective(H) && Distinct(tx) && p < q < Width(|tx|, h)
    ensures CalcHash(H, h, p, tx) != CalcHash(H, h, q, tx)
    decreases h
  {
    if h > 0 {
      NodesDiffer(H, h - 1, 2 * p, 2 * q, tx);
    }
  }

  // ---------------------------------------------------------------- leaves under a node

  /** The leaves under a node are those from Lo up to Hi. */
  function Lo(h: nat, pos: nat): nat {
    if h == 0 then pos else Lo(h - 1, 2 * pos)
  }

  function Hi(n: nat, h: nat, pos: nat): nat {
    if h == 0 then pos + 1
    else if 2 * pos + 1 < Width(n, h - 1) then Hi(n, h - 1, 2 * pos + 1)
    else Hi(n, h - 1, 2 * pos)
  }

  lemma {:induction false} Adjacent(n: nat, h: nat, pos: nat)
    requires pos + 1 < Width(n, h)
    ensures Hi(n, h, pos) == Lo(h, pos + 1)
    decreases h
  {
    if h > 0 { Adjacent(n, h - 1, 2 * pos + 1); }
  }

  lemma {:induction false} LeavesNonempty(n: nat, h: nat, pos: nat)
    requires pos < Width(n, h)
    ensures Lo(h, pos) < Hi(n, h, pos) <= n
    decreases h
  {
    if h > 0 {
      LeavesNonempty(n, h - 1, 2 * pos);
      if Two(n, h, pos) {
        LeavesNonempty(n, h - 1, 2 * pos + 1);
        Adjacent(n, h - 1, 2 * pos);
      }
    }
  }

  lemma {:induction false} LastLeaf(n: nat, h: nat, pos: nat)
    requires pos + 1 == Width(n, h)
    ensures Hi(n, h, pos) == n
    decreases h
  {
    if h > 0 {
      LastLeaf(n, h - 1, Width(n, h - 1) - 1);
    }
  }

  predicate Two(n: nat, h: nat, pos: nat)
    requires h > 0
  {
    2 * pos + 1 < Width(n, h - 1)
  }

  /** A node's leaves are its children's leaves, in order. */
  lemma Children(n: nat, h: nat, pos: nat)
    requires h > 0 && pos < Width(n, h)
    ensures 2 * pos < Width(n, h - 1)
    ensures Lo(h, pos) == Lo(h - 1, 2 * pos) < Hi(n, h - 1, 2 * pos) <= Hi(n, h, pos) <= n
    ensures if Two(n, h, pos)
            then 2 * pos + 1 < Width(n, h - 1) &&
                 Hi(n, h - 1, 2 * pos) == Lo(h - 1, 2 * pos + 1) < Hi(n, h - 1, 2 * pos + 1) == Hi(n, h, pos)
            else Hi(n, h - 1, 2 * pos) == Hi(n, h, pos)
  {
    LeavesNonempty(n, h - 1, 2 * pos);
    if Two(n, h, pos) {
      Adjacent(n, h - 1, 2 * pos);
      LeavesNonempty(n, h - 1, 2 * pos + 1);
    }
  }

  lemma {:induction false} FirstLeaf(h: nat)
    ensures Lo(h, 0) == 0
  {
    if h > 0 { FirstLeaf(h - 1); }
  }

  lemma RootLeaves(n: nat)
    requires n >= 1
    ensures Lo(Height(n), 0) == 0 && Hi(n, Height(n), 0) == n
  {
    FirstLeaf(Height(n));
    LastLeaf(n, Height(n), 0);
  }

  /** The matched positions of a range, in order. */
  function Positions(m: seq<bool>, lo: nat, hi: nat): (r: seq<nat>)
    requires lo <= hi <= |m|
    ensures forall i :: i in r <==> lo <= i < hi && m[i]
    decreases hi - lo
  {
    if lo == hi then [] else (if m[lo] then [lo] else []) + Positions(m, lo + 1, hi)
  }

  lemma {:induction false} PositionsSplit(m: seq<bool>, lo: nat, mid: nat, hi: nat)
    requires lo <= mid <= hi <= |m|
    ensures Positions(m, lo, hi) == Positions(m, lo, mid) + Positions(m, mid, hi)
    decreases mid - lo
  {
    if lo < mid { PositionsSplit(m, lo + 1, mid, hi); }
  }

  function At(tx: seq<Hash>, where: seq<nat>): seq<Hash>
    requires forall i :: i in where ==> i < |tx|
  {
    seq(|where|, k requires 0 <= k < |where| => assert where[k] in where; tx[where[k]])
  }

  // ---------------------------------------------------------------- encoding

  datatype Encoded = Encoded(bits: seq<bool>, hashes: seq<Hash>)

  predicate AnyMatch(m: seq<bool>, lo: nat, hi: nat)
    requires hi <= |m|
  {
    exists p :: lo <= p < hi && m[p]
  }

  /** TraverseAndBuild: what a node appends to vBits and vHash. */
  function Build(H: PairHash, h: nat, pos: nat, tx: seq<Hash>, m: seq<bool>): Encoded
    requires |m| == |tx| && pos < Width(|tx|, h)
    decreases h
  {
    LeavesNonempty(|tx|, h, pos);
    var flag := AnyMatch(m, Lo(h, pos), Hi(|tx|, h, pos));
    if h == 0 || !flag then Encoded([flag], [CalcHash(H, h, pos, tx)])
    else
      var l := Build(H, h - 1, 2 * pos, tx, m);
      var r := if Two(|tx|, h, pos) then Build(H, h - 1, 2 * pos + 1, tx, m) else Encoded([], []);
      Encoded([flag] + l.bits + r.bits, l.hashes + r.hashes)
  }

  // ---------------------------------------------------------------- decoding

  datatype Cursor = Cursor(nBits: nat, nHash: nat, bad: bool, matches: seq<Hash>, index: seq<nat>)

  /** TraverseAndExtract: the node's hash and the advanced cursor. */
  function Extract(H: PairHash, h: nat, pos: nat, n: nat, bits: seq<bool>, hashes: seq<Hash>, c: Cursor)
    : (Hash, Cursor)
    decreases h
  {
    if c.nBits >= |bits| then (0, c.(bad := true))
    else
      var flag := bits[c.nBits];
      var c := c.(nBits := c.nBits + 1);
      if h == 0 || !flag then
        if c.nHash >= |hashes| then (0, c.(bad := true))
        else
          var hash := hashes[c.nHash];
          var c := c.(nHash := c.nHash + 1);
          (hash, if h == 0 && flag then c.(matches := c.matches + [hash], index := c.index + [pos]) else c)
      else
        var (left, c) := Extract(H, h - 1, 2 * pos, n, bits, hashes, c);
        if Two(n, h, pos) then
          var (right, c) := Extract(H, h - 1, 2 * pos + 1, n, bits, hashes, c);
          (H(left, right), c.(bad := c.bad || right == left))
        else (H(left, left), c)
  }

  /** A transmitted tree. */
  datatype Tree = Tree(nTransactions: nat, bits: seq<bool>, hashes: seq<Hash>, bad: bool)

  /** ExtractMatches: the root (0 on failure), vMatch, vnIndex and the new fBad. */
  function ExtractMatches(H: PairHash, t: Tree, vnIndex: seq<nat>, maxTx: nat): (Hash, seq<Hash>, seq<nat>, bool) {
    var n := t.nTransactions;
    if n == 0 || n > maxTx || |t.hashes| > n || |t.bits| < |t.hashes| then (0, [], vnIndex, t.bad)
    else
      var (root, c) := Extract(H, Height(n), 0, n, t.bits, t.hashes, Cursor(0, 0, t.bad, [], vnIndex));
      if c.bad || (c.nBits + 7) / 8 != (|t.bits| + 7) / 8 || c.nHash != |t.hashes| then (0, c.matches, c.index, c.bad)
      else (root, c.matches, c.index, c.bad)
  }

  // ---------------------------------------------------------------- what a stream can say

  /** A part of the tree: a node given by its hash, matched or not, or one whose only child or two children follow. */
  datatype Pruned = Stored(hash: Hash, matched: bool) | Single(child: Pruned) | Pair(left: Pruned, right: Pruned)

  /** Only leaves match, and a node has two children unless it ends an odd level. */
  predicate Fits(p: Pruned, n: nat, h: nat, pos: nat)
    decreases p
  {
    match p
    case Stored(_, matched) => matched ==> h == 0
    case Single(c) => h > 0 && !Two(n, h, pos) && Fits(c, n, h - 1, 2 * pos)
    case Pair(l, r) => h > 0 && Two(n, h, pos) && Fits(l, n, h - 1, 2 * pos) && Fits(r, n, h - 1, 2 * pos + 1)
  }

  function BitsOf(p: Pruned): seq<bool> {
    match p
    case Stored(_, matched) => [matched]
    case Single(c) => [true] + BitsOf(c)
    case Pair(l, r) => [true] + (BitsOf(l) + BitsOf(r))
  }

  function HashesOf(p: Pruned): seq<Hash> {
    match p
    case Stored(hash, _) => [hash]
    case Single(c) => HashesOf(c)
    case Pair(l, r) => HashesOf(l) + HashesOf(r)
  }

  function HashOf(H: PairHash, p: Pruned): Hash {
    match p
    case Stored(hash, _) => hash
    case Single(c) => H(HashOf(H, c), HashOf(H, c))
    case Pair(l, r) => H(HashOf(H, l), HashOf(H, r))
  }

  /** Two children of one node have the same hash. */
  predicate Twins(H: PairHash, p: Pruned) {
    match p
    case Stored(_, _) => false
    case Single(c) => Twins(H, c)
    case Pair(l, r) => HashOf(H, l) == HashOf(H, r) || Twins(H, l) || Twins(H, r)
  }

  function MatchesOf(p: Pruned): seq<Hash> {
    match p
    case Stored(hash, matched) => if matched then [hash] else []
    case Single(c) => MatchesOf(c)
    case Pair(l, r) => MatchesOf(l) + MatchesOf(r)
  }

  function PlacesOf(p: Pruned, pos: nat): seq<nat> {
    match p
    case Stored(_, matched) => if matched then [pos] else []
    case Single(c) => PlacesOf(c, 2 * pos)
    case Pair(l, r) => PlacesOf(l, 2 * pos) + PlacesOf(r, 2 * pos + 1)
  }

  /** `part` stands in `whole` at `from`. */
  ghost predicate Slice<T>(whole: seq<T>, from: nat, part: seq<T>) {
    from + |part| <= |whole| && forall i :: from <= i < from + |part| ==> whole[i] == part[i - from]
  }

  lemma SliceParts<T>(whole: seq<T>, from: nat, a: seq<T>, b: seq<T>)
    ensures Slice(whole, from, a + b) <==> Slice(whole, from, a) && Slice(whole, from + |a|, b)
  {
    if Slice(whole, from, a + b) {
      forall i | from + |a| <= i < from + |a| + |b| ensures whole[i] == b[i - from - |a|] {
        assert (a + b)[i - from] == b[i - from - |a|];
      }
    }
  }

  ghost predicate Stands(p: Pruned, bits: seq<bool>, hashes: seq<Hash>, c: Cursor) {
    Slice(bits, c.nBits, BitsOf(p)) && Slice(hashes, c.nHash, HashesOf(p))
  }

  /** The cursor behind a part of the tree. */
  ghost function After(H: PairHash, p: Pruned, pos: nat, c: Cursor): Cursor {
    Cursor(c.nBits + |BitsOf(p)|, c.nHash + |HashesOf(p)|, c.bad || Twins(H, p),
      c.matches + MatchesOf(p), c.index + PlacesOf(p, pos))
  }

  lemma StandsSingle(p: Pruned, bits: seq<bool>, hashes: seq<Hash>, c: Cursor)
    requires p.Single?
    ensures Stands(p, bits, hashes, c) <==>
      c.nBits < |bits| && bits[c.nBits] && Stands(p.child, bits, hashes, c.(nBits := c.nBits + 1))
  {
    SliceParts(bits, c.nBits, [true], BitsOf(p.child));
  }

  lemma StandsPair(H: PairHash, p: Pruned, pos: nat, bits: seq<bool>, hashes: seq<Hash>, c: Cursor)
    requires p.Pair?
    ensures var c1 := c.(nBits := c.nBits + 1);
      Stands(p, bits, hashes, c) <==>
      && c.nBits < |bits| && bits[c.nBits] && Stands(p.left, bits, hashes, c1)
      && Stands(p.right, bits, hashes, After(H, p.left, pos, c1))
  {
    hide Slice, HashOf, Twins, MatchesOf, PlacesOf;
    SliceParts(bits, c.nBits, [true], BitsOf(p.left) + BitsOf(p.right));
    SliceParts(bits, c.nBits + 1, BitsOf(p.left), BitsOf(p.right));
    SliceParts(hashes, c.nHash, HashesOf(p.left), HashesOf(p.right));
    OneBit(bits, c.nBits);
  }

  lemma OneBit(bits: seq<bool>, k: nat)
    ensures Slice(bits, k, [true]) <==> k < |bits| && bits[k]
  {
  }

  lemma AfterPair(H: PairHash, p: Pruned, pos: nat, c: Cursor)
    requires p.Pair?
    ensures var c2 := After(H, p.left, 2 * pos, c.(nBits := c.nBits + 1));
      var c3 := After(H, p.right, 2 * pos + 1, c2);
      After(H, p, pos, c) == c3.(bad := c3.bad || HashOf(H, p.right) == HashOf(H, p.left))
  {
    hide HashOf;
    var l, r := p.left, p.right;
    assert c.matches + MatchesOf(l) + MatchesOf(r) == c.matches + (MatchesOf(l) + MatchesOf(r));
    var a, b := PlacesOf(l, 2 * pos), PlacesOf(r, 2 * pos + 1);
    assert c.index + a + b == c.index + (a + b);
  }

  /** Where a part of the tree stands in the streams, it is read, and is bad if and only if it has twins. */
  lemma {:induction false} ExtractReads(H: PairHash, p: Pruned, n: nat, h: nat, pos: nat,
                                        bits: seq<bool>, hashes: seq<Hash>, c: Cursor)
    requires Fits(p, n, h, pos) && Stands(p, bits, hashes, c)
    ensures Extract(H, h, pos, n, bits, hashes, c) == (HashOf(H, p), After(H, p, pos, c))
    decreases p
  {
    hide Stands, Two, Extract, After;
    var c1 := c.(nBits := c.nBits + 1);
    match p
    case Stored(_, _) => ExtractStored(H, p, n, h, pos, bits, hashes, c);
    case Single(child) =>
      StandsSingle(p, bits, hashes, c);
      ExtractReads(H, child, n, h - 1, 2 * pos, bits, hashes, c1);
      ExtractFork(H, n, h, pos, bits, hashes, c);
      AfterSingle(H, p, pos, c);
    case Pair(l, r) =>
      StandsPair(H, p, 2 * pos, bits, hashes, c);
      ExtractReads(H, l, n, h - 1, 2 * pos, bits, hashes, c1);
      ExtractReads(H, r, n, h - 1, 2 * pos + 1, bits, hashes, After(H, l, 2 * pos, c1));
      ExtractFork(H, n, h, pos, bits, hashes, c);
      AfterPair(H, p, pos, c);
  }

  lemma ExtractStored(H: PairHash, p: Pruned, n: nat, h: nat, pos: nat,
                      bits: seq<bool>, hashes: seq<Hash>, c: Cursor)
    requires p.Stored? && Fits(p, n, h, pos) && Stands(p, bits, hashes, c)
    ensures Extract(H, h, pos, n, bits, hashes, c) == (HashOf(H, p), After(H, p, pos, c))
  {
    hide Stands;
    ReadsStored(p, bits, hashes, c);
    assert c.matches + [] == c.matches && c.index + [] == c.index;
  }

  lemma ExtractFork(H: PairHash, n: nat, h: nat, pos: nat, bits: seq<bool>, hashes: seq<Hash>, c: Cursor)
    requires h > 0 && c.nBits < |bits| && bits[c.nBits]
    ensures Extract(H, h, pos, n, bits, hashes, c) ==
      var (left, c2) := Extract(H, h - 1, 2 * pos, n, bits, hashes, c.(nBits := c.nBits + 1));
      if !Two(n, h, pos) then (H(left, left), c2) else
        var (right, c3) := Extract(H, h - 1, 2 * pos + 1, n, bits, hashes, c2);
        (H(left, right), c3.(bad := c3.bad || right == left))
  {
  }

  lemma AfterSingle(H: PairHash, p: Pruned, pos: nat, c: Cursor)
    requires p.Single?
    ensures After(H, p, pos, c) == After(H, p.child, 2 * pos, c.(nBits := c.nBits + 1))
  {
  }

  lemma ReadsStored(p: Pruned, bits: seq<bool>, hashes: seq<Hash>, c: Cursor)
    requires p.Stored?
    ensures Stands(p, bits, hashes, c) <==>
      c.nBits < |bits| && bits[c.nBits] == p.matched && c.nHash < |hashes| && hashes[c.nHash] == p.hash
  {
    if Stands(p, bits, hashes, c) {
      assert bits[c.nBits] == BitsOf(p)[0] && hashes[c.nHash] == HashesOf(p)[0];
    }
  }

  /** Whatever is read without fault is a part of the tree that stands there, without twins. */
  lemma {:induction false} ExtractParses(H: PairHash, n: nat, h: nat, pos: nat,
                                         bits: seq<bool>, hashes: seq<Hash>, c: Cursor) returns (p: Pruned)
    requires !Extract(H, h, pos, n, bits, hashes, c).1.bad
    ensures Fits(p, n, h, pos) && Stands(p, bits, hashes, c) && !Twins(H, p) && !c.bad
    decreases h
  {
    hide Stands, Two, Slice;
    var c1 := c.(nBits := c.nBits + 1);
    BadStays(H, h, pos, n, bits, hashes, c);
    if h == 0 || !bits[c.nBits] {
      p := Stored(hashes[c.nHash], bits[c.nBits]);
      ReadsStored(p, bits, hashes, c);
    } else {
      var (left, c2) := Extract(H, h - 1, 2 * pos, n, bits, hashes, c1);
      if Two(n, h, pos) {
        BadStays(H, h - 1, 2 * pos + 1, n, bits, hashes, c2);
        var l := ExtractParses(H, n, h - 1, 2 * pos, bits, hashes, c1);
        ExtractReads(H, l, n, h - 1, 2 * pos, bits, hashes, c1);
        var r := ExtractParses(H, n, h - 1, 2 * pos + 1, bits, hashes, c2);
        ExtractReads(H, r, n, h - 1, 2 * pos + 1, bits, hashes, c2);
        p := Pair(l, r);
        StandsPair(H, p, 2 * pos, bits, hashes, c);
      } else {
        var l := ExtractParses(H, n, h - 1, 2 * pos, bits, hashes, c1);
        p := Single(l);
        StandsSingle(p, bits, hashes, c);
      }
    }
  }

  /** Streams that say a part of the tree without twins, and nothing besides it but bits that fill up its last byte. */
  ghost predicate Says(H: PairHash, t: Tree, p: Pruned) {
    && Fits(p, t.nTransactions, Height(t.nTransactions), 0) && !Twins(H, p)
    && HashesOf(p) == t.hashes && Slice(t.bits, 0, BitsOf(p)) && (|BitsOf(p)| + 7) / 8 == (|t.bits| + 7) / 8
  }

  /** What is refused before it is read. */
  predicate Refused(t: Tree, maxTx: nat) {
    t.nTransactions == 0 || t.nTransactions > maxTx || |t.hashes| > t.nTransactions || |t.bits| < |t.hashes|
  }

  /**
  Any tree at all: it is accepted if and only if it is no worse than before and its streams say a part of the tree
  without twins, for a number of transactions within the limit; the answer is what that part says. What is refused
  unread changes nothing; of what is read, the flag says whether the streams begin with a part without twins.
  */
  lemma {:induction false} AcceptsExactly(H: PairHash, t: Tree, vnIndex: seq<nat>, maxTx: nat)
    ensures Refused(t, maxTx) ==> ExtractMatches(H, t, vnIndex, maxTx) == (0, [], vnIndex, t.bad)
    ensures forall p :: !t.bad && !Refused(t, maxTx) && Says(H, t, p) ==>
      ExtractMatches(H, t, vnIndex, maxTx) == (HashOf(H, p), MatchesOf(p), vnIndex + PlacesOf(p, 0), false)
    ensures !(!t.bad && !Refused(t, maxTx) && exists p :: Says(H, t, p)) ==>
      ExtractMatches(H, t, vnIndex, maxTx).0 == 0
    ensures !Refused(t, maxTx) ==>
      (!ExtractMatches(H, t, vnIndex, maxTx).3 <==> !t.bad && exists p :: Begins(H, t, p))
  {
    var n, c := t.nTransactions, Cursor(0, 0, t.bad, [], vnIndex);
    if !Refused(t, maxTx) {
      forall p | !t.bad && Says(H, t, p)
        ensures ExtractMatches(H, t, vnIndex, maxTx) == (HashOf(H, p), MatchesOf(p), vnIndex + PlacesOf(p, 0), false)
      {
        ExtractReads(H, p, n, Height(n), 0, t.bits, t.hashes, c);
        assert [] + MatchesOf(p) == MatchesOf(p);
      }
      forall p | !t.bad && Begins(H, t, p) ensures !ExtractMatches(H, t, vnIndex, maxTx).3 {
        ExtractReads(H, p, n, Height(n), 0, t.bits, t.hashes, c);
      }
      if !Extract(H, Height(n), 0, n, t.bits, t.hashes, c).1.bad {
        var p := ExtractParses(H, n, Height(n), 0, t.bits, t.hashes, c);
        assert Begins(H, t, p);
        ExtractReads(H, p, n, Height(n), 0, t.bits, t.hashes, c);
        if |HashesOf(p)| == |t.hashes| {
          assert HashesOf(p) == t.hashes;
          assert (|BitsOf(p)| + 7) / 8 == (|t.bits| + 7) / 8 ==> Says(H, t, p);
        }
      }
    }
  }

  ghost predicate Begins(H: PairHash, t: Tree, p: Pruned) {
    && Fits(p, t.nTransactions, Height(t.nTransactions), 0) && !Twins(H, p)
    && Slice(t.hashes, 0, HashesOf(p)) && Slice(t.bits, 0, BitsOf(p))
  }

  // ---------------------------------------------------------------- what is built

  lemma AtSplit(tx: seq<Hash>, a: seq<nat>, b: seq<nat>)
    requires forall i :: i in a + b ==> i < |tx|
    ensures forall i :: i in a ==> i < |tx|
    ensures forall i :: i in b ==> i < |tx|
    ensures At(tx, a + b) == At(tx, a) + At(tx, b)
  {
    forall i | i in a ensures i < |tx| { assert i in a + b; }
    forall i | i in b ensures i < |tx| { assert i in a + b; }
  }

  lemma NoPositions(m: seq<bool>, lo: nat, hi: nat)
    requires lo <= hi <= |m|
    ensures AnyMatch(m, lo, hi) <==> Positions(m, lo, hi) != []
  {
    if Positions(m, lo, hi) != [] { assert Positions(m, lo, hi)[0] in Positions(m, lo, hi); }
  }

  function Right(H: PairHash, h: nat, pos: nat, tx: seq<Hash>, m: seq<bool>): Encoded
    requires |m| == |tx| && pos < Width(|tx|, h) && h > 0
  {
    if Two(|tx|, h, pos) then Build(H, h - 1, 2 * pos + 1, tx, m) else Encoded([], [])
  }

  lemma BuildStored(H: PairHash, h: nat, pos: nat, tx: seq<Hash>, m: seq<bool>)
    requires |m| == |tx| && pos < Width(|tx|, h)
    requires Lo(h, pos) < Hi(|tx|, h, pos) <= |tx|
    requires h == 0 || !AnyMatch(m, Lo(h, pos), Hi(|tx|, h, pos))
    ensures Build(H, h, pos, tx, m) ==
      Encoded([AnyMatch(m, Lo(h, pos), Hi(|tx|, h, pos))], [CalcHash(H, h, pos, tx)])
  {
  }

  /** The encoding of a node with matches below is a set bit and its children's encodings. */
  lemma BuildFork(H: PairHash, h: nat, pos: nat, tx: seq<Hash>, m: seq<bool>)
    requires |m| == |tx| && pos < Width(|tx|, h) && h > 0
    requires Lo(h, pos) < Hi(|tx|, h, pos) <= |tx|
    requires AnyMatch(m, Lo(h, pos), Hi(|tx|, h, pos))
    ensures 2 * pos < Width(|tx|, h - 1)
    ensures var l, r := Build(H, h - 1, 2 * pos, tx, m), Right(H, h, pos, tx, m);
      Build(H, h, pos, tx, m) == Encoded([true] + (l.bits + r.bits), l.hashes + r.hashes)
  {
    var l, r := Build(H, h - 1, 2 * pos, tx, m), Right(H, h, pos, tx, m);
    assert [true] + l.bits + r.bits == [true] + (l.bits + r.bits);
  }

  /** The part of the tree that is sent: down to the matched leaves, and no further elsewhere. */
  function Sent(H: PairHash, h: nat, pos: nat, tx: seq<Hash>, m: seq<bool>): Pruned
    requires |m| == |tx| && pos < Width(|tx|, h)
    decreases h
  {
    LeavesNonempty(|tx|, h, pos);
    var flag := AnyMatch(m, Lo(h, pos), Hi(|tx|, h, pos));
    if h == 0 || !flag then Stored(CalcHash(H, h, pos, tx), flag)
    else if Two(|tx|, h, pos) then Pair(Sent(H, h - 1, 2 * pos, tx, m), Sent(H, h - 1, 2 * pos + 1, tx, m))
    else Single(Sent(H, h - 1, 2 * pos, tx, m))
  }

  lemma {:induction false} BuildSends(H: PairHash, h: nat, pos: nat, tx: seq<Hash>, m: seq<bool>)
    requires |m| == |tx| && pos < Width(|tx|, h)
    ensures var p, e := Sent(H, h, pos, tx, m), Build(H, h, pos, tx, m);
      Fits(p, |tx|, h, pos) && BitsOf(p) == e.bits && HashesOf(p) == e.hashes && HashOf(H, p) == CalcHash(H, h, pos, tx)
    decreases h
  {
    hide AnyMatch, Width, Lo, Hi;
    LeavesNonempty(|tx|, h, pos);
    if h > 0 && AnyMatch(m, Lo(h, pos), Hi(|tx|, h, pos)) {
      BuildFork(H, h, pos, tx, m);
      BuildSends(H, h - 1, 2 * pos, tx, m);
      if Two(|tx|, h, pos) { BuildSends(H, h - 1, 2 * pos + 1, tx, m); }
    }
  }

  lemma {:induction false} SentMatches(H: PairHash, h: nat, pos: nat, tx: seq<Hash>, m: seq<bool>)
    requires |m| == |tx| && pos < Width(|tx|, h)
    ensures Lo(h, pos) <= Hi(|tx|, h, pos) <= |tx|
    ensures var p, where := Sent(H, h, pos, tx, m), Positions(m, Lo(h, pos), Hi(|tx|, h, pos));
      PlacesOf(p, pos) == where && MatchesOf(p) == At(tx, where)
    decreases h
  {
    hide AnyMatch, Width, Positions, At;
    var n := |tx|;
    LeavesNonempty(n, h, pos);
    var lo, hi := Lo(h, pos), Hi(n, h, pos);
    NoPositions(m, lo, hi);
    if h == 0 {
      OnePosition(tx, m, pos);
    } else if !AnyMatch(m, lo, hi) {
      AtNothing(tx);
    } else {
      Children(n, h, pos);
      SentMatches(H, h - 1, 2 * pos, tx, m);
      if Two(n, h, pos) {
        SentMatches(H, h - 1, 2 * pos + 1, tx, m);
        var mid := Hi(n, h - 1, 2 * pos);
        PositionsSplit(m, lo, mid, hi);
        AtSplit(tx, Positions(m, lo, mid), Positions(m, mid, hi));
      }
    }
  }

  lemma OnePosition(tx: seq<Hash>, m: seq<bool>, pos: nat)
    requires pos < |tx| == |m|
    ensures var where := Positions(m, pos, pos + 1);
      && (AnyMatch(m, pos, pos + 1) <==> m[pos]) && where == (if m[pos] then [pos] else [])
      && At(tx, where) == if m[pos] then [tx[pos]] else []
  {
    assert Positions(m, pos + 1, pos + 1) == [];
  }

  lemma AtNothing(tx: seq<Hash>)
    ensures At(tx, []) == []
  {
  }

  // ---------------------------------------------------------------- equal siblings

  /** A node with a match below it has two children of the same hash. */
  ghost predicate TwinsAt(H: PairHash, tx: seq<Hash>, m: seq<bool>, g: nat, q: nat)
    requires |m| == |tx|
  {
    && g > 0 && q < Width(|tx|, g) && Two(|tx|, g, q) && Hi(|tx|, g, q) <= |m|
    && AnyMatch(m, Lo(g, q), Hi(|tx|, g, q))
    && CalcHash(H, g - 1, 2 * q, tx) == CalcHash(H, g - 1, 2 * q + 1, tx)
  }

  /** The node at height `h` that a lower one is under. */
  function Over(g: nat, q: nat, h: nat): nat
    decreases h - g
  {
    if g >= h then q else Over(g + 1, q / 2, h)
  }

  lemma {:induction false} OverIn(n: nat, g: nat, q: nat, h: nat)
    requires q < Width(n, g) && g <= h
    ensures Over(g, q, h) < Width(n, h) && Lo(h, Over(g, q, h)) <= Lo(g, q) && Hi(n, g, q) <= Hi(n, h, Over(g, q, h))
    decreases h - g
  {
    hide Lo, Hi;
    if g < h {
      Children(n, g + 1, q / 2);
      if q % 2 == 1 { LeavesNonempty(n, g, q - 1); }
      OverIn(n, g + 1, q / 2, h);
    }
  }

  lemma {:induction false} OverChild(g: nat, q: nat, h: nat)
    requires g < h
    ensures Over(g, q, h) == Over(g, q, h - 1) / 2
    decreases h - g
  {
    if g + 1 < h { OverChild(g + 1, q / 2, h); }
  }

  ghost predicate TwinsUnder(H: PairHash, h: nat, pos: nat, tx: seq<Hash>, m: seq<bool>)
    requires |m| == |tx|
  {
    exists g: nat, q: nat :: g <= h && Over(g, q, h) == pos && TwinsAt(H, tx, m, g, q)
  }

  lemma UnderStored(H: PairHash, h: nat, pos: nat, tx: seq<Hash>, m: seq<bool>)
    requires |m| == |tx| && pos < Width(|tx|, h) && Hi(|tx|, h, pos) <= |tx|
    requires h == 0 || !AnyMatch(m, Lo(h, pos), Hi(|tx|, h, pos))
    ensures !TwinsUnder(H, h, pos, tx, m)
  {
    hide Width, Lo, Hi, CalcHash, Over;
    forall g: nat, q: nat | g <= h && Over(g, q, h) == pos ensures !TwinsAt(H, tx, m, g, q) {
      if TwinsAt(H, tx, m, g, q) { OverIn(|tx|, g, q, h); }
    }
  }

  lemma UnderFork(H: PairHash, h: nat, pos: nat, tx: seq<Hash>, m: seq<bool>)
    requires |m| == |tx| && pos < Width(|tx|, h) && h > 0
    ensures TwinsUnder(H, h, pos, tx, m) <==>
      || TwinsAt(H, tx, m, h, pos)
      || TwinsUnder(H, h - 1, 2 * pos, tx, m) || (Two(|tx|, h, pos) && TwinsUnder(H, h - 1, 2 * pos + 1, tx, m))
  {
    hide TwinsAt;
    if g: nat, q: nat :| g <= h && Over(g, q, h) == pos && TwinsAt(H, tx, m, g, q) {
      if g < h {
        OverChild(g, q, h);
        TwinsThere(H, tx, m, g, q);
        OverIn(|tx|, g, q, h - 1);
      }
    }
    if TwinsAt(H, tx, m, h, pos) { assert Over(h, pos, h) == pos; }
    forall g: nat, q: nat | g < h && TwinsAt(H, tx, m, g, q) ensures Over(g, q, h) == Over(g, q, h - 1) / 2 {
      OverChild(g, q, h);
    }
  }

  lemma TwinsThere(H: PairHash, tx: seq<Hash>, m: seq<bool>, g: nat, q: nat)
    requires |m| == |tx| && TwinsAt(H, tx, m, g, q)
    ensures q < Width(|tx|, g)
  {
  }

  /** Under a node, twins are sent if and only if there are any. */
  lemma {:induction false} SentTwins(H: PairHash, h: nat, pos: nat, tx: seq<Hash>, m: seq<bool>)
    requires |m| == |tx| && pos < Width(|tx|, h)
    ensures Twins(H, Sent(H, h, pos, tx, m)) <==> TwinsUnder(H, h, pos, tx, m)
    decreases h
  {
    hide AnyMatch, Width, Lo, Hi, TwinsUnder, CalcHash;
    var n := |tx|;
    LeavesNonempty(n, h, pos);
    if h > 0 && AnyMatch(m, Lo(h, pos), Hi(n, h, pos)) {
      Children(n, h, pos);
      UnderFork(H, h, pos, tx, m);
      SentTwins(H, h - 1, 2 * pos, tx, m);
      BuildSends(H, h - 1, 2 * pos, tx, m);
      if Two(n, h, pos) {
        SentTwins(H, h - 1, 2 * pos + 1, tx, m);
        BuildSends(H, h - 1, 2 * pos + 1, tx, m);
      }
    } else {
      UnderStored(H, h, pos, tx, m);
    }
  }

  /** At the root, that is any node of the tree. */
  lemma UnderRoot(H: PairHash, tx: seq<Hash>, m: seq<bool>)
    requires |m| == |tx| >= 1
    ensures TwinsUnder(H, Height(|tx|), 0, tx, m) <==>
      exists g: nat, q: nat :: g <= Height(|tx|) && TwinsAt(H, tx, m, g, q)
  {
    hide Lo, Hi, CalcHash, AnyMatch, Over, Width;
    forall g: nat, q: nat | g <= Height(|tx|) && TwinsAt(H, tx, m, g, q) ensures Over(g, q, Height(|tx|)) == 0 {
      OverIn(|tx|, g, q, Height(|tx|));
    }
  }

  // ---------------------------------------------------------------- size of the encoding

  function MatchCount(m: seq<bool>, h: nat, pos: nat): nat
    requires pos < Width(|m|, h)
  {
    LeavesNonempty(|m|, h, pos);
    |Positions(m, Lo(h, pos), Hi(|m|, h, pos))|
  }

  lemma MatchCountSplit(m: seq<bool>, h: nat, pos: nat)
    requires h > 0 && pos < Width(|m|, h)
    ensures MatchCount(m, h, pos) == MatchCount(m, h - 1, 2 * pos) +
      if Two(|m|, h, pos) then MatchCount(m, h - 1, 2 * pos + 1) else 0
  {
    hide Lo, Hi, Width, Positions;
    Children(|m|, h, pos);
    if Two(|m|, h, pos) {
      PositionsSplit(m, Lo(h, pos), Hi(|m|, h - 1, 2 * pos), Hi(|m|, h, pos));
    }
  }

  /** One stored hash per leaf at most, and at least one bit per hash. */
  lemma {:induction false} HashesFitLeaves(H: PairHash, h: nat, pos: nat, tx: seq<Hash>, m: seq<bool>)
    requires |m| == |tx| && pos < Width(|tx|, h)
    ensures var e := Build(H, h, pos, tx, m);
      |e.hashes| <= |e.bits| && |e.hashes| <= Hi(|tx|, h, pos) - Lo(h, pos)
    decreases h
  {
    LeavesNonempty(|tx|, h, pos);
    if h > 0 {
      HashesFitLeaves(H, h - 1, 2 * pos, tx, m);
      if Two(|tx|, h, pos) {
        HashesFitLeaves(H, h - 1, 2 * pos + 1, tx, m);
        Adjacent(|tx|, h - 1, 2 * pos);
      }
    }
  }

  lemma Distribute(a: nat, b: nat, h: nat)
    ensures (a + b) * h == a * (h - 1) + b * (h - 1) + (a + b)
  {
  }

  /** At most one stored hash beside each step of each matched path. */
  lemma {:induction false} HashesFitPaths(H: PairHash, h: nat, pos: nat, tx: seq<Hash>, m: seq<bool>)
    requires |m| == |tx| && pos < Width(|tx|, h)
    ensures |Build(H, h, pos, tx, m).hashes| <= 1 + MatchCount(m, h, pos) * h
    decreases h
  {
    hide Lo, Hi, Width, Positions, AnyMatch, CalcHash, MatchCount;
    LeavesNonempty(|tx|, h, pos);
    if h > 0 && AnyMatch(m, Lo(h, pos), Hi(|tx|, h, pos)) {
      Children(|tx|, h, pos);
      BuildFork(H, h, pos, tx, m);
      hide Build;
      MatchCountSplit(m, h, pos);
      HashesFitPaths(H, h - 1, 2 * pos, tx, m);
      var a, b := MatchCount(m, h - 1, 2 * pos), 0;
      if Two(|tx|, h, pos) {
        HashesFitPaths(H, h - 1, 2 * pos + 1, tx, m);
        b := MatchCount(m, h - 1, 2 * pos + 1);
      }
      SomeMatch(m, h, pos);
      Distribute(a, b, h);
    } else {
      assert MatchCount(m, h, pos) * h >= 0;
    }
  }

  lemma SomeMatch(m: seq<bool>, h: nat, pos: nat)
    requires pos < Width(|m|, h) && Lo(h, pos) < Hi(|m|, h, pos) <= |m|
    ensures AnyMatch(m, Lo(h, pos), Hi(|m|, h, pos)) <==> MatchCount(m, h, pos) > 0
  {
    NoPositions(m, Lo(h, pos), Hi(|m|, h, pos));
  }

  /** How many of the visited nodes have a single child: the last node above a level of odd width. */
  function Singles(m: seq<bool>, h: nat, pos: nat): nat
    requires pos < Width(|m|, h)
    decreases h
  {
    LeavesNonempty(|m|, h, pos);
    if h == 0 || !AnyMatch(m, Lo(h, pos), Hi(|m|, h, pos)) then 0
    else if Two(|m|, h, pos) then Singles(m, h - 1, 2 * pos) + Singles(m, h - 1, 2 * pos + 1)
    else 1 + Singles(m, h - 1, 2 * pos)
  }

  /** A level has an odd number of nodes, and a match lies under the last of them. */
  ghost predicate OddLastMatched(m: seq<bool>, g: nat)
    requires |m| > 0
  {
    Width(|m|, g) % 2 == 1 && exists i :: Lo(g, Width(|m|, g) - 1) <= i < |m| && m[i]
  }

  lemma {:induction false} LastNodes(n: nat, g: nat, h: nat)
    requires n > 0 && g <= h
    ensures Width(n, g) > 0 && Width(n, h) > 0 && Lo(h, Width(n, h) - 1) <= Lo(g, Width(n, g) - 1)
    decreases h - g
  {
    if g < h {
      LastNodes(n, g, h - 1);
      WidthPositive(n, h);
      var w, pos := Width(n, h - 1), Width(n, h) - 1;
      if 2 * pos + 1 < w {
        Children(n, h, pos);
      }
    } else {
      WidthPositive(n, h);
    }
  }

  lemma {:induction false} WidthPositive(n: nat, h: nat)
    requires n > 0
    ensures Width(n, h) > 0
  {
    if h > 0 { WidthPositive(n, h - 1); }
  }

  /** Matched single-child nodes occur only above the last node of a level. */
  lemma {:induction false} NoSingles(m: seq<bool>, h: nat, pos: nat)
    requires pos < Width(|m|, h) && |m| > 0
    ensures Singles(m, h, pos) == 0 <==>
      (pos + 1 == Width(|m|, h) ==> forall g :: 0 <= g < h ==> !OddLastMatched(m, g))
    decreases h
  {
    hide Lo, Hi, OddLastMatched, AnyMatch;
    LeavesNonempty(|m|, h, pos);
    if h > 0 {
      if AnyMatch(m, Lo(h, pos), Hi(|m|, h, pos)) {
        Children(|m|, h, pos);
        NoSingles(m, h - 1, 2 * pos);
        if Two(|m|, h, pos) {
          NoSingles(m, h - 1, 2 * pos + 1);
          if pos + 1 == Width(|m|, h) { EvenLevel(m, h - 1); }
        } else {
          MatchedBelow(m, h, pos);
        }
      } else if pos + 1 == Width(|m|, h) {
        forall g | 0 <= g < h ensures !OddLastMatched(m, g) { Unmatched(m, g, h, pos); }
      }
    }
  }

  lemma EvenLevel(m: seq<bool>, g: nat)
    requires |m| > 0 && Width(|m|, g) % 2 == 0
    ensures !OddLastMatched(m, g)
  {
  }

  lemma MatchedBelow(m: seq<bool>, h: nat, pos: nat)
    requires |m| > 0 && h > 0 && pos < Width(|m|, h) && !Two(|m|, h, pos) && Hi(|m|, h, pos) <= |m|
    requires AnyMatch(m, Lo(h, pos), Hi(|m|, h, pos))
    ensures OddLastMatched(m, h - 1)
  {
  }

  lemma Unmatched(m: seq<bool>, g: nat, h: nat, pos: nat)
    requires |m| > 0 && g < h && pos + 1 == Width(|m|, h) && Hi(|m|, h, pos) <= |m|
    requires !AnyMatch(m, Lo(h, pos), Hi(|m|, h, pos))
    ensures !OddLastMatched(m, g)
  {
    hide Lo, Hi, Width;
    LastLeaf(|m|, h, pos);
    LastNodes(|m|, g, h);
  }

  /** The documented size of the flags, 2N - 1 bits for N hashes, is short by exactly the single-child nodes. */
  lemma {:induction false} BitCount(H: PairHash, h: nat, pos: nat, tx: seq<Hash>, m: seq<bool>)
    requires |m| == |tx| && pos < Width(|tx|, h)
    ensures |Build(H, h, pos, tx, m).bits| == 2 * |Build(H, h, pos, tx, m).hashes| - 1 + Singles(m, h, pos)
    decreases h
  {
    hide Lo, Hi, Width, AnyMatch, CalcHash;
    LeavesNonempty(|tx|, h, pos);
    if h > 0 && AnyMatch(m, Lo(h, pos), Hi(|tx|, h, pos)) {
      Children(|tx|, h, pos);
      BuildFork(H, h, pos, tx, m);
      hide Build;
      BitCount(H, h - 1, 2 * pos, tx, m);
      if Two(|tx|, h, pos) { BitCount(H, h - 1, 2 * pos + 1, tx, m); }
    }
  }

  /** The tree CPartialMerkleTree's constructor builds. */
  function FromTxids(H: PairHash, tx: seq<Hash>, m: seq<bool>): Tree
    requires |tx| >= 1 && |m| == |tx|
  {
    var e := Build(H, Height(|tx|), 0, tx, m);
    Tree(|tx|, e.bits, e.hashes, false)
  }

  /**
  The documented sizes: both hash bounds hold; the bound of 2N - 1 flag bits holds if and only if no level of an
  odd number of nodes has a match under its last node.
  */
  lemma EncodedSize(H: PairHash, tx: seq<Hash>, m: seq<bool>)
    requires |tx| >= 1 && |m| == |tx|
    ensures var t := FromTxids(H, tx, m);
      && |t.hashes| <= |tx| && |t.hashes| <= |t.bits|
      && |t.hashes| <= 1 + |Positions(m, 0, |tx|)| * Height(|tx|)
      && (|t.bits| <= 2 * |t.hashes| - 1 <==> forall g :: 0 <= g < Height(|tx|) ==> !OddLastMatched(m, g))
  {
    NoSingles(m, Height(|tx|), 0);
    HashesFitLeaves(H, Height(|tx|), 0, tx, m);
    HashesFitPaths(H, Height(|tx|), 0, tx, m);
    BitCount(H, Height(|tx|), 0, tx, m);
    RootLeaves(|tx|);
  }

  /** Three ids of which the last matches: two hashes and four bits. */
  lemma BitBoundFails(H: PairHash, a: Hash, b: Hash, c: Hash)
    ensures var t := FromTxids(H, [a, b, c], [false, false, true]);
      |t.hashes| == 2 && |t.bits| == 4
  {
    var tx, m := [a, b, c], [false, false, true];
    assert Width(3, 0) == 3 && Width(3, 1) == 2 && Width(3, 2) == 1;
    assert Height(3) == HeightFrom(3, 1) == HeightFrom(3, 2) == 2;
    assert Lo(0, 2) == 2 && Lo(1, 0) == 0 && Lo(1, 1) == 2 && Lo(2, 0) == 0;
    assert Hi(3, 0, 2) == 3 && Hi(3, 1, 0) == 2 && Hi(3, 1, 1) == 3 && Hi(3, 2, 0) == 3;
    assert m[2] && AnyMatch(m, 0, 3) && AnyMatch(m, 2, 3) && !AnyMatch(m, 0, 2);
    assert Build(H, 0, 2, tx, m) == Encoded([true], [c]);
    assert Build(H, 1, 0, tx, m) == Encoded([false], [H(a, b)]) by {
      assert CalcHash(H, 0, 0, tx) == a && CalcHash(H, 0, 1, tx) == b;
    }
    assert Build(H, 1, 1, tx, m) == Encoded([true, true], [c]);
  }

  /** What a receiver holds after the bits went over the wire packed into whole bytes. */
  ghost predicate OnWire(bits: seq<bool>, received: seq<bool>) {
    |received| == (|bits| + 7) / 8 * 8 && forall p :: 0 <= p < |received| ==> received[p] == (p < |bits| && bits[p])
  }

  lemma WholeSlice<T>(s: seq<T>)
    ensures Slice(s, 0, s)
  {
  }

  lemma WireKeeps(bits: seq<bool>, received: seq<bool>)
    requires OnWire(bits, received) || received == bits
    ensures Slice(received, 0, bits) && |bits| <= |received| && (|bits| + 7) / 8 == (|received| + 7) / 8
  {
    var k := (|bits| + 7) / 8;
    assert 8 * k >= |bits|;
  }

  /**
  Round trip, for every list of ids: the receiver of the built tree reads exactly the matched ids and positions, in
  order. It gets the Merkle root if and only if no node with a match below it has two children of the same hash;
  otherwise it gets null, and the tree is bad.
  */
  lemma RoundTrip(H: PairHash, tx: seq<Hash>, m: seq<bool>, received: seq<bool>, maxTx: nat)
    requires 1 <= |tx| <= maxTx && |m| == |tx|
    requires OnWire(FromTxids(H, tx, m).bits, received) || received == FromTxids(H, tx, m).bits
    ensures var t, where := FromTxids(H, tx, m), Positions(m, 0, |tx|);
      var twins := exists g: nat, q: nat :: g <= Height(|tx|) && TwinsAt(H, tx, m, g, q);
      ExtractMatches(H, t.(bits := received), [], maxTx) ==
        (if twins then 0 else Root(H, tx), At(tx, where), where, twins)
  {
    hide Build, CalcHash, Extract, Width, Lo, Hi, Positions, At, TwinsAt, TwinsUnder, Sent, Height, OnWire, Slice;
    hide Fits, Twins, HashOf, BitsOf, HashesOf, MatchesOf, PlacesOf;
    var n := |tx|;
    EncodedSize(H, tx, m);
    var t, p := FromTxids(H, tx, m), Sent(H, Height(n), 0, tx, m);
    RootLeaves(n);
    BuildSends(H, Height(n), 0, tx, m);
    SentMatches(H, Height(n), 0, tx, m);
    SentTwins(H, Height(n), 0, tx, m);
    UnderRoot(H, tx, m);
    WireKeeps(t.bits, received);
    WholeSlice(t.hashes);
    ExtractReads(H, p, n, Height(n), 0, received, t.hashes, Cursor(0, 0, false, [], []));
    assert [] + MatchesOf(p) == MatchesOf(p) && [] + PlacesOf(p, 0) == PlacesOf(p, 0);
  }

  /** Distinct ids under injective hashing have no such node: their tree is always accepted. */
  lemma DistinctNoTwins(H: PairHash, tx: seq<Hash>, m: seq<bool>, g: nat, q: nat)
    requires Injective(H) && Distinct(tx) && |m| == |tx|
    ensures !TwinsAt(H, tx, m, g, q)
  {
    hide Lo, Hi, Injective, Distinct, CalcHash;
    if TwinsAt(H, tx, m, g, q) { NodesDiffer(H, g - 1, 2 * q, 2 * q + 1, tx); }
  }

  // ---------------------------------------------------------------- authentication

  ghost predicate Genuine(tx: seq<Hash>, matches: seq<Hash>, index: seq<nat>) {
    |matches| == |index| && forall k :: 0 <= k < |index| ==> index[k] < |tx| && tx[index[k]] == matches[k]
  }

  /** Whatever the bits and hashes, a good traversal that yields the node's true hash reports true leaves. */
  lemma {:induction false} ExtractIsGenuine(H: PairHash, h: nat, pos: nat, tx: seq<Hash>,
                                            bits: seq<bool>, hashes: seq<Hash>, c: Cursor)
    requires Injective(H) && pos < Width(|tx|, h) && Genuine(tx, c.matches, c.index)
    ensures var (hash, c') := Extract(H, h, pos, |tx|, bits, hashes, c);
      !c'.bad && hash == CalcHash(H, h, pos, tx) ==> Genuine(tx, c'.matches, c'.index)
    decreases h
  {
    assert h == 0 ==> pos < |tx|;
    if h > 0 { Children(|tx|, h, pos); }
    hide Width;
    if c.nBits < |bits| && h > 0 && bits[c.nBits] {
      var c0 := c.(nBits := c.nBits + 1);
      var (left, c1) := Extract(H, h - 1, 2 * pos, |tx|, bits, hashes, c0);
      ExtractIsGenuine(H, h - 1, 2 * pos, tx, bits, hashes, c0);
      if Two(|tx|, h, pos) {
        BadStays(H, h - 1, 2 * pos + 1, |tx|, bits, hashes, c1);
        if !c1.bad && left == CalcHash(H, h - 1, 2 * pos, tx) {
          ExtractIsGenuine(H, h - 1, 2 * pos + 1, tx, bits, hashes, c1);
        }
      }
    }
  }

  lemma {:induction false} BadStays(H: PairHash, h: nat, pos: nat, n: nat, bits: seq<bool>, hashes: seq<Hash>,
      c: Cursor)
    ensures c.bad ==> Extract(H, h, pos, n, bits, hashes, c).1.bad
    decreases h
  {
    if c.nBits < |bits| && h > 0 && bits[c.nBits] {
      var c0 := c.(nBits := c.nBits + 1);
      BadStays(H, h - 1, 2 * pos, n, bits, hashes, c0);
      BadStays(H, h - 1, 2 * pos + 1, n, bits, hashes, Extract(H, h - 1, 2 * pos, n, bits, hashes, c0).1);
    }
  }

  /**
  Authentication: if any tree at all, honest or not, extracts to the (non-null) Merkle root of a list
  of that many ids, then every reported id really is the block's id at the reported position.
  */
  lemma Authentic(H: PairHash, t: Tree, tx: seq<Hash>, maxTx: nat)
    requires Injective(H) && |tx| == t.nTransactions >= 1
    requires Root(H, tx) != 0 && ExtractMatches(H, t, [], maxTx).0 == Root(H, tx)
    ensures var (_, matches, index, _) := ExtractMatches(H, t, [], maxTx);
      |matches| == |index| && forall k :: 0 <= k < |index| ==> index[k] < |tx| && tx[index[k]] == matches[k]
  {
    ExtractIsGenuine(H, Height(|tx|), 0, tx, t.bits, t.hashes, Cursor(0, 0, t.bad, [], []));
  }
}
