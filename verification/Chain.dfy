/**
The block index (src/chain.cpp, src/chain.h): every block knows its predecessor and, by pskip, one further
ancestor, so that any ancestor is found in few jumps; CChain lists the blocks of one branch by height. A block's
links are set when it is added to the index and do not change, so they are constants here.
*/
module Chain {
  import opened Numbers
  import opened SkipHeights

  // ---------------------------------------------------------------- blocks

  class CBlockIndex {
    const pprev: CBlockIndex?
    const pskip: CBlockIndex?
    const nHeight: nat

    /** The first block. */
    constructor Genesis()
      ensures InTree(this) && Built(this) && nHeight == 0 && pprev == null
    {
      pprev, pskip, nHeight := null, null, 0;
    }

    /** A block added on top of another, with its skip pointer built. */
    constructor (prev: CBlockIndex)
      requires InTree(prev)
      ensures InTree(this) && pprev == prev && nHeight == prev.nHeight + 1
      ensures pskip == Ancestor(prev, GetSkipHeight(nHeight))
      ensures Built(prev) ==> Built(this)
    {
      pprev := prev;
      nHeight := prev.nHeight + 1;
      var skip, _ := prev.GetAncestor(GetSkipHeight(prev.nHeight + 1));
      pskip := skip;
    }

    /**
    The ancestor at a height, or null; following skip pointers where that does not jump too far. When all of them are
    built, the loop takes as many passes as the walk over the heights, and below 2^d no more than its longest.
    */
    method GetAncestor(height: int) returns (r: CBlockIndex?, ghost passes: nat)
      requires InTree(this)
      ensures r == if 0 <= height <= nHeight then Ancestor(this, height) else null
      ensures Built(this) && 0 <= height <= nHeight ==> passes == Passes(nHeight, height)
      ensures Built(this) ==> forall d :: d >= 9 && nHeight < Pow2(d) ==> passes <= (d * d + 8 * d - 28) / 4
    {
      hide Passes, GetSkipHeight, Pow2;
      passes := 0;
      if height > nHeight || height < 0 { return null, 0; }
      var pindexWalk: CBlockIndex := this;
      var heightWalk := nHeight;
      while heightWalk > height
        invariant InTree(pindexWalk) && height <= heightWalk == pindexWalk.nHeight
        invariant Ancestor(pindexWalk, height) == Ancestor(this, height)
        invariant Built(this) ==> Built(pindexWalk) && passes + Passes(heightWalk, height) == Passes(nHeight, height)
      {
        PassesStep(heightWalk, height);
        var heightSkip := GetSkipHeight(heightWalk);
        var heightSkipPrev := GetSkipHeight(heightWalk - 1);
        if pindexWalk.pskip != null && (heightSkip == height ||
            (heightSkip > height && !(heightSkipPrev < heightSkip - 2 && heightSkipPrev >= height))) {
          SkipKeeps(pindexWalk, height);
          if Built(pindexWalk) { BuiltSkip(pindexWalk); }
          pindexWalk := pindexWalk.pskip;
          heightWalk := heightSkip;
        } else {
          pindexWalk := pindexWalk.pprev;
          heightWalk := heightWalk - 1;
        }
        passes := passes + 1;
      }
      r := pindexWalk;
      NoPasses(height);
      forall d | d >= 9 && nHeight < Pow2(d) && Built(this) ensures passes <= (d * d + 8 * d - 28) / 4 {
        WalkIsShort(nHeight, height, d);
      }
    }
  }

  /** Predecessors lead back to a first block, one height at a time. */
  ghost predicate Linked(b: CBlockIndex)
    decreases b.nHeight
  {
    if b.nHeight == 0 then b.pprev == null
    else b.pprev != null && b.pprev.nHeight == b.nHeight - 1 && Linked(b.pprev)
  }

  /** Going back by pprev to a height. */
  ghost function Ancestor(b: CBlockIndex, height: nat): CBlockIndex
    requires Linked(b) && height <= b.nHeight
    decreases b.nHeight
  {
    if b.nHeight == height then b else Ancestor(b.pprev, height)
  }

  /** Links that adding blocks one on another produces: every skip pointer that is set is the right one. */
  ghost predicate InTree(b: CBlockIndex)
    decreases b.nHeight
  {
    && Linked(b)
    && (b.nHeight == 0 ==> b.pskip == null)
    && (b.nHeight > 0 ==>
         InTree(b.pprev) && (b.pskip != null ==> b.pskip == Ancestor(b.pprev, GetSkipHeight(b.nHeight))))
  }

  /** Every skip pointer is set. */
  ghost predicate Built(b: CBlockIndex)
    requires Linked(b)
    decreases b.nHeight
  {
    b.nHeight > 0 ==> b.pskip != null && Built(b.pprev)
  }

  lemma {:induction false} BuiltAncestor(b: CBlockIndex, height: nat)
    requires InTree(b) && Built(b) && height <= b.nHeight
    ensures Linked(Ancestor(b, height)) && Built(Ancestor(b, height))
    decreases b.nHeight
  {
    AncestorIs(b, height);
    if b.nHeight > height { BuiltAncestor(b.pprev, height); }
  }

  lemma BuiltSkip(b: CBlockIndex)
    requires InTree(b) && Built(b) && b.pskip != null
    ensures Linked(b.pskip) && Built(b.pskip)
  {
    BuiltAncestor(b.pprev, GetSkipHeight(b.nHeight));
  }

  lemma PassesStep(h: nat, target: nat)
    requires h > target
    ensures Passes(h, target) == 1 + Passes(if Follows(h, target) then GetSkipHeight(h) else h - 1, target)
  {
    assert Passes(h, target) == 1 + Passes(Next(h, target), target);
  }

  lemma NoPasses(target: nat)
    ensures Passes(target, target) == 0
  {
  }

  lemma {:induction false} AncestorIs(b: CBlockIndex, height: nat)
    requires InTree(b) && height <= b.nHeight
    ensures InTree(Ancestor(b, height)) && Ancestor(b, height).nHeight == height
    decreases b.nHeight
  {
    if b.nHeight > height { AncestorIs(b.pprev, height); }
  }

  /** An ancestor's ancestor is an ancestor. */
  lemma {:induction false} AncestorOfAncestor(b: CBlockIndex, high: nat, low: nat)
    requires InTree(b) && low <= high <= b.nHeight
    ensures InTree(Ancestor(b, high)) && Ancestor(b, high).nHeight == high
    ensures Ancestor(Ancestor(b, high), low) == Ancestor(b, low)
    decreases b.nHeight
  {
    AncestorIs(b, high);
    if b.nHeight > high { AncestorOfAncestor(b.pprev, high, low); }
  }

  lemma SkipKeeps(b: CBlockIndex, height: nat)
    requires InTree(b) && b.pskip != null && height <= GetSkipHeight(b.nHeight)
    ensures InTree(b.pskip) && b.pskip.nHeight == GetSkipHeight(b.nHeight) < b.nHeight
    ensures Ancestor(b.pskip, height) == Ancestor(b, height)
  {
    AncestorOfAncestor(b.pprev, GetSkipHeight(b.nHeight), height);
  }

  /** Whether a block is on another's way back to the first block. */
  ghost predicate IsAncestor(a: CBlockIndex, b: CBlockIndex)
    requires Linked(b)
  {
    a.nHeight <= b.nHeight && Ancestor(b, a.nHeight) == a
  }

  lemma CommonBelow(a: CBlockIndex, b: CBlockIndex, high: nat, low: nat)
    requires InTree(a) && InTree(b) && low <= high <= a.nHeight && high <= b.nHeight
    requires Ancestor(a, high) == Ancestor(b, high)
    ensures Ancestor(a, low) == Ancestor(b, low)
  {
    AncestorOfAncestor(a, high, low);
    AncestorOfAncestor(b, high, low);
  }

  /** The highest block that both have as an ancestor. The branches must meet somewhere. */
  method LastCommonAncestor(a: CBlockIndex, b: CBlockIndex) returns (r: CBlockIndex)
    requires InTree(a) && InTree(b) && Ancestor(a, 0) == Ancestor(b, 0)
    ensures InTree(r) && IsAncestor(r, a) && IsAncestor(r, b)
    ensures forall c: CBlockIndex :: IsAncestor(c, a) && IsAncestor(c, b) ==> IsAncestor(c, r)
  {
    var pa: CBlockIndex?, pb: CBlockIndex? := a, b;
    ghost var h: nat := if a.nHeight <= b.nHeight then a.nHeight else b.nHeight;
    AncestorIs(a, h);
    AncestorIs(b, h);
    if pa.nHeight > pb.nHeight {
      var back, _ := pa.GetAncestor(pb.nHeight);
      pa := back;
    } else if pb.nHeight > pa.nHeight {
      var back, _ := pb.GetAncestor(pa.nHeight);
      pb := back;
    }
    while pa != pb && pa != null && pb != null
      invariant h <= a.nHeight && h <= b.nHeight && pa == Ancestor(a, h) && pb == Ancestor(b, h)
      invariant forall k: nat :: h < k <= a.nHeight && k <= b.nHeight ==> Ancestor(a, k) != Ancestor(b, k)
      decreases h
    {
      AncestorStep(a, h);
      AncestorStep(b, h);
      pa := pa.pprev;
      pb := pb.pprev;
      h := h - 1;
    }
    AncestorIs(a, h);
    r := pa;
    forall c: CBlockIndex | IsAncestor(c, a) && IsAncestor(c, b) ensures IsAncestor(c, r) {
      AncestorOfAncestor(a, h, c.nHeight);
    }
  }

  /** One step back from an ancestor, unless it is the first block. */
  lemma {:induction false} AncestorStep(b: CBlockIndex, h: nat)
    requires InTree(b) && h <= b.nHeight
    ensures Ancestor(b, h).nHeight == h && InTree(Ancestor(b, h))
    ensures h > 0 ==> Ancestor(b, h).pprev == Ancestor(b, h - 1)
    decreases b.nHeight
  {
    AncestorIs(b, h);
    if b.nHeight > h { AncestorStep(b.pprev, h); }
  }

  // ---------------------------------------------------------------- one branch by height

  /** The blocks from the first to a given one. */
  ghost function Path(tip: CBlockIndex): (r: seq<CBlockIndex>)
    requires Linked(tip)
    ensures |r| == tip.nHeight + 1
    decreases tip.nHeight
  {
    if tip.nHeight == 0 then [tip] else Path(tip.pprev) + [tip]
  }

  lemma {:induction false} PathAt(tip: CBlockIndex, h: nat)
    requires Linked(tip) && h <= tip.nHeight
    ensures Path(tip)[h] == Ancestor(tip, h)
    decreases tip.nHeight
  {
    if h < tip.nHeight { PathAt(tip.pprev, h); }
  }

  /** What the loop of SetTip has done when it stops: from where it stopped down, the old entries are right already. */
  lemma SameBelow(old': seq<CBlockIndex?>, tip: CBlockIndex, oldTip: CBlockIndex, h: nat, k: nat)
    requires InTree(tip) && InTree(oldTip) && old' == Path(oldTip) && k <= h <= tip.nHeight && h <= oldTip.nHeight
    requires old'[h] == Ancestor(tip, h)
    ensures old'[k] == Ancestor(tip, k)
  {
    PathAt(oldTip, h);
    PathAt(oldTip, k);
    CommonBelow(oldTip, tip, h, k);
  }

  class CChain {
    var vChain: seq<CBlockIndex?>

    /** Either empty or the whole path to its last block. */
    ghost predicate Valid()
      reads this
    {
      vChain == [] || (var tip := vChain[|vChain| - 1]; tip != null && InTree(tip) && vChain == Path(tip))
    }

    constructor ()
      ensures Valid() && vChain == []
    {
      vChain := [];
    }

    function Height(): int
      reads this
    {
      |vChain| - 1
    }

    function At(nHeight: int): CBlockIndex?
      reads this
    {
      if nHeight < 0 || nHeight >= |vChain| then null else vChain[nHeight]
    }

    function Tip(): CBlockIndex?
      reads this
    {
      if |vChain| > 0 then vChain[|vChain| - 1] else null
    }

    predicate Contains(pindex: CBlockIndex)
      reads this
    {
      At(pindex.nHeight) == pindex
    }

    /** The chain becomes the whole path to the new tip, whatever it was; only blocks not on it are written. */
    method SetTip(tip: CBlockIndex?)
      requires Valid() && (tip != null ==> InTree(tip))
      modifies this
      ensures Valid()
      ensures vChain == if tip == null then [] else Path(tip)
    {
      hide Path;
      if tip == null {
        vChain := [];
        return;
      }
      ghost var before := vChain;
      ghost var oldTip: CBlockIndex? := null;
      if before != [] { oldTip := before[|before| - 1]; }
      var n := tip.nHeight + 1;
      vChain := if n <= |vChain| then vChain[..n] else vChain + Nulls(n - |vChain|);
      var pindex: CBlockIndex? := tip;
      ghost var h := tip.nHeight;
      while pindex != null && vChain[pindex.nHeight] != pindex
        invariant |vChain| == n && -1 <= h <= tip.nHeight
        invariant pindex == if h == -1 then null else Ancestor(tip, h)
        invariant pindex != null ==> pindex.nHeight == h
        invariant forall k :: h < k < n ==> vChain[k] == Ancestor(tip, k)
        invariant forall k :: 0 <= k <= h ==> vChain[k] == if k < |before| then before[k] else null
        decreases h
      {
        AncestorStep(tip, h);
        vChain := vChain[pindex.nHeight := pindex];
        pindex := pindex.pprev;
        h := h - 1;
        if h >= 0 { AncestorIs(tip, h); }
      }
      forall k | 0 <= k < n ensures vChain[k] == Path(tip)[k] {
        PathAt(tip, k);
        if k <= h { SameBelow(before, tip, oldTip, h, k); }
      }
      assert vChain == Path(tip);
    }

    /** The highest block of this chain on the way back from a block, or null if there is none. */
    method FindFork(start: CBlockIndex?) returns (r: CBlockIndex?)
      requires Valid() && (start != null ==> InTree(start))
      ensures start == null ==> r == null
      ensures start != null && r != null ==> Contains(r) && IsAncestor(r, start)
      ensures start != null ==> forall c: CBlockIndex :: IsAncestor(c, start) && Contains(c) ==>
        r != null && c.nHeight <= r.nHeight
    {
      if start == null { return null; }
      var pindex: CBlockIndex? := start;
      ghost var h: int := start.nHeight;
      if start.nHeight > Height() {
        var back, _ := start.GetAncestor(Height());
        pindex := back;
        h := Height();
      }
      if h >= 0 { AncestorIs(start, h); }
      while pindex != null && !Contains(pindex)
        invariant -1 <= h <= start.nHeight && pindex == if h == -1 then null else Ancestor(start, h)
        invariant forall c: CBlockIndex :: IsAncestor(c, start) && Contains(c) ==> c.nHeight <= h
        decreases h
      {
        AncestorStep(start, h);
        ghost var here := pindex;
        pindex := pindex.pprev;
        h := h - 1;
        forall c: CBlockIndex | IsAncestor(c, start) && Contains(c) ensures c.nHeight <= h {
          assert c.nHeight == h + 1 ==> c == here;
        }
      }
      if h >= 0 { AncestorIs(start, h); }
      r := pindex;
    }

    /** Blocks back to the first one, at steps that grow exponentially after the first ten. */
    method GetLocator(from: CBlockIndex?) returns (vHave: seq<CBlockIndex>)
      requires Valid() && (from != null ==> InTree(from))
      ensures from == null && vChain == [] ==> vHave == []
      ensures from != null || vChain != [] ==>
        var start := if from == null then vChain[|vChain| - 1] else from;
        InTree(start) && IsLocator(start, vHave)
    {
      hide Path, InTree, Linked, Pow2;
      vHave := [];
      var pindex: CBlockIndex? := from;
      if pindex == null { pindex := Tip(); }
      if pindex == null { return; }
      ghost var start: CBlockIndex := pindex;
      ghost var h := start.nHeight;
      LocatorZero(start);
      var nStep := 1;
      while true
        invariant InTree(start) && Linked(start) && h == start.nHeight && nStep == LocatorStep(|vHave|)
        invariant LocatorHeight(h, |vHave|) <= h && pindex == Ancestor(start, LocatorHeight(h, |vHave|))
        invariant |vHave| > 0 ==> LocatorHeight(h, |vHave| - 1) > 0
        invariant forall k :: 0 <= k < |vHave| ==> vHave[k] == Ancestor(start, LocatorHeight(h, k))
        decreases LocatorHeight(h, |vHave|)
      {
        ghost var n := |vHave|;
        LocatorNext(h, n);
        AncestorInTree(start, LocatorHeight(h, n));
        vHave := vHave + [pindex];
        if pindex.nHeight == 0 {
          LocatorDone(start, vHave);
          return;
        }
        var nHeight := if pindex.nHeight - nStep > 0 then pindex.nHeight - nStep else 0;
        NextInChain(start, LocatorHeight(h, n), nHeight);
        if Contains(pindex) {
          ChainAncestor(pindex, nHeight);
          pindex := At(nHeight);
        } else {
          var back, _ := pindex.GetAncestor(nHeight);
          pindex := back;
        }
        if |vHave| > 10 { nStep := nStep * 2; }
      }
    }

    /** For a block of the chain, the chain's entry at a lower height is its ancestor. */
    lemma ChainAncestor(pindex: CBlockIndex, height: nat)
      requires Valid() && Contains(pindex) && Linked(pindex) && height <= pindex.nHeight
      ensures At(height) == Ancestor(pindex, height)
    {
      var tip := vChain[|vChain| - 1];
      PathAt(tip, pindex.nHeight);
      PathAt(tip, height);
      AncestorOfAncestor(tip, pindex.nHeight, height);
    }
  }

  // ---------------------------------------------------------------- locators

  /** The height of a locator's entry: one less each time for the first ten, then twice as far each time. */
  ghost function LocatorHeight(h: nat, n: nat): (r: nat)
    ensures r <= h
  {
    var back := if n <= 10 then n else 9 + Pow2(n - 10);
    if h < back then 0 else h - back
  }

  ghost function LocatorStep(n: nat): nat { if n <= 10 then 1 else Pow2(n - 10) }

  /** The exponent of the next power of two. */
  function CeilLog2(n: nat): (r: nat)
    ensures n <= Pow2(r)
  {
    if n <= 1 then 0 else 1 + CeilLog2((n + 1) / 2)
  }

  /** From the start to the first block, at the heights given, with about the logarithm of the height in entries. */
  ghost predicate IsLocator(start: CBlockIndex, vHave: seq<CBlockIndex>)
    requires Linked(start)
  {
    var h := start.nHeight;
    && vHave != [] && vHave[0] == start && vHave[|vHave| - 1] == Ancestor(start, 0)
    && (forall k :: 0 <= k < |vHave| ==> vHave[k] == Ancestor(start, LocatorHeight(h, k)))
    && (forall k :: 0 <= k < |vHave| ==> vHave[k].nHeight == LocatorHeight(h, k))
    && (forall j, k :: 0 <= j < k < |vHave| ==> vHave[k].nHeight < vHave[j].nHeight)
    && |vHave| <= 12 + CeilLog2(h)
  }

  lemma LocatorZero(start: CBlockIndex)
    requires InTree(start)
    ensures Linked(start) && LocatorHeight(start.nHeight, 0) == start.nHeight && Ancestor(start, start.nHeight) == start
  {
  }

  /** One step back; for heights below 2^30 the next step fits in 31 bits. */
  lemma LocatorNext(h: nat, n: nat)
    ensures var c := LocatorHeight(h, n);
      LocatorHeight(h, n + 1) == if c < LocatorStep(n) then 0 else c - LocatorStep(n)
    ensures LocatorStep(n) >= 1 && LocatorStep(n + 1) == if n + 1 > 10 then 2 * LocatorStep(n) else LocatorStep(n)
    ensures h < 0x4000_0000 && LocatorHeight(h, n) > 0 ==> LocatorStep(n + 1) < 0x8000_0000
  {
    assert n >= 10 ==> Pow2(n + 1 - 10) == 2 * Pow2(n - 10);
    assert Pow2(0) == 1;
  }

  /** The first eleven gaps are of one block, and from there each is twice the one before, down to the first block. */
  lemma LocatorGaps(h: nat, k: nat)
    ensures k <= 11 ==> LocatorHeight(h, k) == if h < k then 0 else h - k
    ensures k >= 10 && LocatorHeight(h, k + 2) > 0 ==>
      LocatorHeight(h, k + 1) - LocatorHeight(h, k + 2) == 2 * (LocatorHeight(h, k) - LocatorHeight(h, k + 1))
  {
    assert Pow2(0) == 1 && Pow2(1) == 2;
    if k >= 10 { assert Pow2(k + 2 - 10) == 2 * Pow2(k + 1 - 10) && Pow2(k + 1 - 10) == 2 * Pow2(k - 10); }
  }

  lemma AncestorInTree(b: CBlockIndex, height: nat)
    requires InTree(b) && Linked(b) && height <= b.nHeight
    ensures InTree(Ancestor(b, height)) && Linked(Ancestor(b, height)) && Ancestor(b, height).nHeight == height
  {
    AncestorIs(b, height);
  }

  lemma NextInChain(start: CBlockIndex, high: nat, low: nat)
    requires InTree(start) && Linked(start) && low <= high <= start.nHeight
    ensures Linked(Ancestor(start, high)) && Ancestor(start, high).nHeight == high
    ensures Ancestor(Ancestor(start, high), low) == Ancestor(start, low)
  {
    AncestorOfAncestor(start, high, low);
  }

  lemma {:induction false} LocatorFalls(h: nat, j: nat, k: nat)
    requires j < k && LocatorHeight(h, k - 1) > 0
    ensures LocatorHeight(h, k) < LocatorHeight(h, j)
  {
    hide LocatorHeight, Pow2;
    LocatorNext(h, k - 1);
    if j < k - 1 {
      LocatorPositive(h, k - 2);
      LocatorFalls(h, j, k - 1);
    }
  }

  lemma LocatorPositive(h: nat, n: nat)
    requires LocatorHeight(h, n + 1) > 0
    ensures LocatorHeight(h, n) > 0
  {
    hide LocatorHeight, Pow2;
    LocatorNext(h, n);
  }

  /** The number of entries: the last but one was still above zero. */
  lemma LocatorLength(h: nat, n: nat)
    requires n > 0 ==> LocatorHeight(h, n - 1) > 0
    ensures n + 1 <= 12 + CeilLog2(h)
  {
    hide CeilLog2;
    if n >= 12 {
      if n - 11 >= CeilLog2(h) { Pow2Monotone(CeilLog2(h), n - 11); }
    }
  }

  lemma LocatorDone(start: CBlockIndex, vHave: seq<CBlockIndex>)
    requires InTree(start) && Linked(start) && vHave != [] && vHave[|vHave| - 1].nHeight == 0
    requires |vHave| > 1 ==> LocatorHeight(start.nHeight, |vHave| - 2) > 0
    requires forall k :: 0 <= k < |vHave| ==> vHave[k] == Ancestor(start, LocatorHeight(start.nHeight, k))
    ensures IsLocator(start, vHave)
  {
    hide LocatorHeight, Pow2, CeilLog2, InTree, Linked, Ancestor;
    var h := start.nHeight;
    forall k | 0 <= k < |vHave| ensures vHave[k].nHeight == LocatorHeight(h, k) {
      AncestorInTree(start, LocatorHeight(h, k));
    }
    forall j, k | 0 <= j < k < |vHave| ensures vHave[k].nHeight < vHave[j].nHeight {
      LocatorAbove(h, k - 1, |vHave| - 2);
      LocatorFalls(h, j, k);
    }
    LocatorZero(start);
    LocatorLength(h, |vHave| - 1);
  }

  lemma {:induction false} LocatorAbove(h: nat, j: nat, k: nat)
    requires j <= k && LocatorHeight(h, k) > 0
    ensures LocatorHeight(h, j) > 0
  {
    hide LocatorHeight, Pow2;
    if j < k {
      LocatorPositive(h, k - 1);
      LocatorAbove(h, j, k - 1);
    }
  }

  function Nulls(n: nat): (r: seq<CBlockIndex?>)
    ensures |r| == n && forall k :: 0 <= k < n ==> r[k] == null
  {
    seq(n, _ => null)
  }
}
