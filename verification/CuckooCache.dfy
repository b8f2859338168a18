/** The cuckoo cache as an object, with its garbage flags packed eight to a byte. */
module CuckooCache {
  import opened Wrappers
  import opened PackedBits
  import opened Cuckoo

  ghost function BitsOf(mem: seq<bv8>, n: nat): (r: seq<bool>)
    requires n <= 8 * |mem|
    ensures |r| == n && forall i :: 0 <= i < n ==> r[i] == BitAt(mem, i)
  {
    seq(n, i requires 0 <= i < n => BitAt(mem, i))
  }

  /** The largest number of flags for which the byte count does not overflow. */
  const MAX_FLAGS := 0xFFFF_FFF8

  /** bit_packed_atomic_flags, without the atomicity. */
  class BitPackedFlags {
    var mem: seq<bv8>

    ghost function Bits(n: nat): (r: seq<bool>)
      requires n <= 8 * |mem|
      reads this
      ensures |r| == n
    {
      BitsOf(mem, n)
    }

    /** Room for `size` flags, all of them set; the sum is of 32 bits, so above MAX_FLAGS there is no room at all. */
    constructor (size: uint32)
      ensures size <= MAX_FLAGS ==> size <= 8 * |mem| && Bits(size) == seq(size, _ => true)
      ensures size > MAX_FLAGS ==> mem == []
    {
      mem := seq((size + 7) % 0x1_0000_0000 / 8, _ => 0xFF);
      new;
      Filled(mem, true);
      hide BitAt;
    }

    method BitSet(s: nat, ghost n: nat)
      requires s < n <= 8 * |mem|
      modifies this
      ensures |mem| == old(|mem|) && Bits(n) == old(Bits(n))[s := true]
    {
      hide BitAt, SetBit;
      ghost var was := mem;
      mem := mem[s / 8 := SetBit(mem[s / 8], s % 8, true)];
      forall p | 0 <= p < n ensures BitAt(mem, p) == (BitAt(was, p) || p == s) { SetAt(was, s, true, p); }
    }

    method BitUnset(s: nat, ghost n: nat)
      requires s < n <= 8 * |mem|
      modifies this
      ensures |mem| == old(|mem|) && Bits(n) == old(Bits(n))[s := false]
    {
      hide BitAt, ClearBit;
      ghost var was := mem;
      mem := mem[s / 8 := ClearBit(mem[s / 8], s % 8)];
      forall p | 0 <= p < n ensures BitAt(mem, p) == (BitAt(was, p) && p != s) { ClearAt(was, s, p); }
    }

    method BitIsSet(s: nat, ghost n: nat) returns (b: bool)
      requires s < n <= 8 * |mem|
      ensures b == Bits(n)[s]
    {
      b := BitAt(mem, s);
    }
  }

  class CuckooCache {
    const H: Hashes
    var table: seq<Element>
    var collectionFlags: BitPackedFlags
    var epochFlags: seq<bool>
    var epochHeuristicCounter: nat
    var epochSize: nat
    var depthLimit: nat

    ghost predicate Valid()
      reads this, collectionFlags
    {
      |epochFlags| == |table| <= 8 * |collectionFlags.mem| && 2 <= |table| < 0x1_0000_0000
    }

    ghost function Abs(): (c: Cache)
      requires Valid()
      reads this, collectionFlags
      ensures Shaped(c)
    {
      Cache(table, collectionFlags.Bits(|table|), epochFlags, epochHeuristicCounter, epochSize, depthLimit)
    }

    /** Construction followed by setup; `depthLimit` is the rounded base-2 logarithm of the size. */
    constructor Setup(H: Hashes, newSize: uint32, depthLimit: nat)
      ensures this.H == H && fresh(collectionFlags)
      ensures newSize <= MAX_FLAGS ==> Valid() && Abs() == Cuckoo.Setup(newSize, depthLimit)
      ensures newSize > MAX_FLAGS ==> collectionFlags.mem == []
    {
      this.H, this.depthLimit := H, depthLimit;
      var size := if newSize < 2 then 2 else newSize;
      table := seq(size, _ => Default);
      collectionFlags := new BitPackedFlags(size);
      epochFlags := seq(size, _ => false);
      var share := (45 * size) % 0x1_0000_0000 / 100;
      epochSize := if share < 1 then 1 else share;
      epochHeuristicCounter := epochSize;
    }

    method CountLive() returns (count: nat)
      requires Valid()
      ensures count == Live(Abs())
    {
      count := 0;
      for i := 0 to |table|
        invariant count == LiveUpTo(Abs().collect, epochFlags, i)
      {
        var garbage := collectionFlags.BitIsSet(i, |table|);
        if epochFlags[i] && !garbage { count := count + 1; }
      }
    }

    /** The scan that starts a new epoch. */
    method AgeEpochs()
      requires Valid()
      modifies this`epochFlags, collectionFlags
      ensures Valid() && |collectionFlags.mem| == old(|collectionFlags.mem|)
      ensures Abs() == Age(old(Abs())).(counter := epochHeuristicCounter)
    {
      ghost var c := Abs();
      for i := 0 to |table|
        invariant Valid() && |collectionFlags.mem| == old(|collectionFlags.mem|)
        invariant forall j :: 0 <= j < |table| ==> epochFlags[j] == (j >= i && c.epoch[j])
        invariant forall j :: 0 <= j < |table| ==>
          collectionFlags.Bits(|table|)[j] == (c.collect[j] || (j < i && !c.epoch[j]))
      {
        if epochFlags[i] {
          epochFlags := epochFlags[i := false];
        } else {
          collectionFlags.BitSet(i, |table|);
        }
      }
      assert collectionFlags.Bits(|table|) == Age(c).collect;
    }

    method EpochCheck()
      requires Valid()
      modifies this`epochFlags, this`epochHeuristicCounter, collectionFlags
      ensures Valid() && Abs() == Cuckoo.EpochCheck(old(Abs()))
    {
      hide Age, LiveUpTo;
      if epochHeuristicCounter != 0 {
        epochHeuristicCounter := epochHeuristicCounter - 1;
        return;
      }
      var epochUnusedCount := CountLive();
      if epochUnusedCount >= epochSize {
        AgeCounter(Abs());
        AgeEpochs();
        epochHeuristicCounter := epochSize;
      } else {
        epochHeuristicCounter := Max(1, Max(epochSize / 16, epochSize - epochUnusedCount));
      }
    }

    method FindHolding(locs: seq<nat>, e: Element) returns (r: Option<nat>)
      requires forall k :: 0 <= k < |locs| ==> locs[k] < |table|
      ensures r == Holding(table, locs, e)
    {
      for i := 0 to |locs|
        invariant Holding(table, locs, e) == Holding(table, locs[i..], e)
      {
        if table[locs[i]] == e { return Some(locs[i]); }
        assert locs[i..][1..] == locs[i + 1..];
      }
      return None;
    }

    method FindFree(locs: seq<nat>) returns (r: Option<nat>)
      requires Valid() && forall k :: 0 <= k < |locs| ==> locs[k] < |table|
      ensures r == Free(Abs().collect, locs)
    {
      for i := 0 to |locs|
        invariant Free(Abs().collect, locs) == Free(Abs().collect, locs[i..])
      {
        var garbage := collectionFlags.BitIsSet(locs[i], |table|);
        if garbage { return Some(locs[i]); }
        assert locs[i..][1..] == locs[i + 1..];
      }
      return None;
    }

    method PleaseKeep(loc: nat, epoch: bool)
      requires Valid() && loc < |table|
      modifies this`epochFlags, collectionFlags
      ensures Valid()
      ensures Abs() == old(Abs()).(collect := old(Abs()).collect[loc := false], epoch := old(Abs()).epoch[loc := epoch])
    {
      collectionFlags.BitUnset(loc, |table|);
      epochFlags := epochFlags[loc := epoch];
    }

    method Insert(element: Element)
      requires Valid()
      modifies this`table, this`epochFlags, this`epochHeuristicCounter, collectionFlags
      ensures Valid() && Abs() == Cuckoo.Insert(H, old(Abs()), element)
    {
      hide Cuckoo.EpochCheck, Displace, Locs, Holding, Free, NextLoc;
      var e := element;
      EpochCheck();
      var lastLoc: nat, lastEpoch := Invalid, true;
      var locs := Locs(H, |table|, e);
      var found := FindHolding(locs, e);
      if found.Some? {
        PleaseKeep(found.value, lastEpoch);
        return;
      }
      ghost var whole := Displace(H, Abs(), e, lastLoc, lastEpoch, depthLimit);
      for depth := 0 to depthLimit
        invariant Valid() && locs == Locs(H, |table|, e)
        invariant Displace(H, Abs(), e, lastLoc, lastEpoch, depthLimit - depth) == whole
      {
        DisplaceUnfold(H, Abs(), e, lastLoc, lastEpoch, depthLimit - depth);
        var free := FindFree(locs);
        if free.Some? {
          table := table[free.value := e];
          PleaseKeep(free.value, lastEpoch);
          return;
        }
        lastLoc := NextLoc(locs, lastLoc);
        var evicted, epoch := table[lastLoc], lastEpoch;
        table := table[lastLoc := e];
        e := evicted;
        lastEpoch := epochFlags[lastLoc];
        epochFlags := epochFlags[lastLoc := epoch];
        locs := Locs(H, |table|, e);
      }
      DisplaceUnfold(H, Abs(), e, lastLoc, lastEpoch, 0);
    }

    method Contains(e: Element, erase: bool) returns (r: bool)
      requires Valid()
      modifies collectionFlags
      ensures Valid() && (Abs(), r) == Cuckoo.Contains(H, old(Abs()), e, erase)
    {
      hide Locs, Holding;
      var found := FindHolding(Locs(H, |table|, e), e);
      if found.Some? {
        if erase { collectionFlags.BitSet(found.value, |table|); }
        return true;
      }
      return false;
    }
  }

  lemma AgeCounter(c: Cache)
    requires Shaped(c)
    ensures Age(c).counter == c.epochSize
  {
  }
}
