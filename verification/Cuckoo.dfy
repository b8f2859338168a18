/**
The cuckoo cache (src/cuckoocache.h): eight locations per element, displacement of bounded depth,
lazily collected garbage and two live epochs. The hash functions are the parameter `H`.
*/
module Cuckoo {
  import opened Wrappers

  type Element = nat

  /** What the table holds before anything is stored. */
  const Default: Element := 0

  type uint32 = x: nat | x < 0x1_0000_0000

  type Hashes = (nat, Element) -> uint32

  /** The table; `collect` marks discardable slots, `epoch` the recently inserted ones. */
  datatype Cache = Cache(
    table: seq<Element>, collect: seq<bool>, epoch: seq<bool>, counter: nat, epochSize: nat, depthLimit: nat)

  predicate Shaped(c: Cache) {
    |c.table| == |c.collect| == |c.epoch| && 2 <= |c.table| < 0x1_0000_0000
  }

  // ---------------------------------------------------------------- locations

  /** One location: the hash scaled from 32 bits to the table size. */
  function Loc(H: Hashes, size: nat, e: Element, k: nat): (r: nat)
    requires size > 0
    ensures r < size && r * 0x1_0000_0000 <= H(k, e) * size < (r + 1) * 0x1_0000_0000
  {
    ScaledInRange(H(k, e), size);
    H(k, e) * size / 0x1_0000_0000
  }

  lemma ScaledInRange(h: uint32, size: nat)
    requires size > 0
    ensures 0 <= h * size / 0x1_0000_0000 < size
  {
    assert h * size < 0x1_0000_0000 * size;
  }

  /** compute_hashes */
  function Locs(H: Hashes, size: nat, e: Element): (r: seq<nat>)
    requires size > 0
    ensures |r| == 8 && forall k :: 0 <= k < 8 ==> r[k] < size
  {
    [Loc(H, size, e, 0), Loc(H, size, e, 1), Loc(H, size, e, 2), Loc(H, size, e, 3),
     Loc(H, size, e, 4), Loc(H, size, e, 5), Loc(H, size, e, 6), Loc(H, size, e, 7)]
  }

  /** The first of the locations that holds `e`. */
  function Holding(table: seq<Element>, locs: seq<nat>, e: Element): (r: Option<nat>)
    requires forall k :: 0 <= k < |locs| ==> locs[k] < |table|
    ensures r.Some? ==> r.value in locs && table[r.value] == e
    ensures r.None? <==> forall l :: l in locs ==> table[l] != e
  {
    if locs == [] then None
    else
      assert forall l :: l in locs <==> l == locs[0] || l in locs[1..];
      if table[locs[0]] == e then Some(locs[0]) else Holding(table, locs[1..], e)
  }

  /** The first of the locations that may be overwritten. */
  function Free(collect: seq<bool>, locs: seq<nat>): (r: Option<nat>)
    requires forall k :: 0 <= k < |locs| ==> locs[k] < |collect|
    ensures r.Some? ==> r.value in locs && collect[r.value]
    ensures r.None? <==> forall l :: l in locs ==> !collect[l]
  {
    if locs == [] then None
    else
      assert forall l :: l in locs <==> l == locs[0] || l in locs[1..];
      if collect[locs[0]] then Some(locs[0]) else Free(collect, locs[1..])
  }

  /** std::find: the index of the first occurrence, or the length. */
  function Find(locs: seq<nat>, l: nat): (k: nat)
    ensures k <= |locs|
  {
    if locs == [] || locs[0] == l then 0 else 1 + Find(locs[1..], l)
  }

  /** The location to displace from: the one after `last` in the cyclic order. */
  function NextLoc(locs: seq<nat>, last: nat): (r: nat)
    requires |locs| == 8
    ensures r in locs
  {
    locs[(1 + Find(locs, last)) % 8]
  }

  /** An element with eight different locations is not put back where it was taken from. */
  lemma NotBack(locs: seq<nat>, last: nat)
    requires |locs| == 8 && forall j, k :: 0 <= j < k < 8 ==> locs[j] != locs[k]
    ensures NextLoc(locs, last) != last
  {
    FindIs(locs, last);
  }

  lemma {:induction false} FindIs(locs: seq<nat>, l: nat)
    ensures var k := Find(locs, l);
      (k < |locs| ==> locs[k] == l) && forall j :: 0 <= j < k ==> locs[j] != l
  {
    if locs != [] && locs[0] != l { FindIs(locs[1..], l); }
  }

  const Invalid := 0xFFFF_FFFF

  // ---------------------------------------------------------------- setup and epochs

  function Setup(newSize: uint32, depthLimit: nat): Cache {
    var size := if newSize < 2 then 2 else newSize;
    var share := (45 * size) % 0x1_0000_0000 / 100;
    var epochSize := if share < 1 then 1 else share;
    Cache(seq(size, _ => Default), seq(size, _ => true), seq(size, _ => false), epochSize, epochSize, depthLimit)
  }

  /** At least two slots, all free; an epoch has 45 percent of them, at least one, if the product fits in 32 bits. */
  lemma SetupIs(newSize: uint32, depthLimit: nat)
    ensures var c := Setup(newSize, depthLimit);
      && Shaped(c) && |c.table| == (if newSize < 2 then 2 else newSize) && c.counter == c.epochSize >= 1
      && (forall i :: 0 <= i < |c.table| ==> c.table[i] == Default && c.collect[i] && !c.epoch[i])
      && (|c.table| <= 95_443_717 ==>
           45 * |c.table| < 100 * (c.epochSize + 1) && (c.epochSize > 1 ==> 100 * c.epochSize <= 45 * |c.table|))
  {
  }

  /** How many of the first `n` slots are in the living epoch and not erased. */
  function LiveUpTo(collect: seq<bool>, epoch: seq<bool>, n: nat): nat
    requires n <= |collect| == |epoch|
  {
    if n == 0 then 0 else LiveUpTo(collect, epoch, n - 1) + LiveAt(collect[n - 1], epoch[n - 1])
  }

  function LiveAt(collect: bool, epoch: bool): nat {
    if epoch && !collect then 1 else 0
  }

  function Live(c: Cache): nat
    requires Shaped(c)
  {
    LiveUpTo(c.collect, c.epoch, |c.table|)
  }

  function Max(a: nat, b: nat): nat { if a < b then b else a }

  /** Start a new epoch: what was recent becomes old, what was old may be erased. */
  function Age(c: Cache): (r: Cache)
    requires Shaped(c)
    ensures Shaped(r)
  {
    c.(epoch := seq(|c.table|, _ => false),
       collect := seq(|c.table|, i requires 0 <= i < |c.table| => c.collect[i] || !c.epoch[i]),
       counter := c.epochSize)
  }

  function EpochCheck(c: Cache): (r: Cache)
    requires Shaped(c)
    ensures Shaped(r) && r.table == c.table
  {
    if c.counter != 0 then c.(counter := c.counter - 1)
    else if Live(c) >= c.epochSize then Age(c)
    else c.(counter := Max(1, Max(c.epochSize / 16, c.epochSize - Live(c))))
  }

  // ---------------------------------------------------------------- insert and contains

  function Put(c: Cache, loc: nat, e: Element, epoch: bool): (r: Cache)
    requires Shaped(c) && loc < |c.table|
    ensures Shaped(r)
  {
    c.(table := c.table[loc := e], collect := c.collect[loc := false], epoch := c.epoch[loc := epoch])
  }

  /** The displacement loop: `e` is the element in hand, `lastEpoch` its epoch flag. */
  function Displace(H: Hashes, c: Cache, e: Element, last: nat, lastEpoch: bool, depth: nat): (r: Cache)
    requires Shaped(c)
    ensures Shaped(r)
    decreases depth
  {
    if depth == 0 then c
    else
      var locs := Locs(H, |c.table|, e);
      match Free(c.collect, locs)
      case Some(loc) => Put(c, loc, e, lastEpoch)
      case None =>
        var loc := NextLoc(locs, last);
        var c' := c.(table := c.table[loc := e], epoch := c.epoch[loc := lastEpoch]);
        Displace(H, c', c.table[loc], loc, c.epoch[loc], depth - 1)
  }

  function Insert(H: Hashes, c: Cache, e: Element): (r: Cache)
    requires Shaped(c)
    ensures Shaped(r)
  {
    var c := EpochCheck(c);
    match Holding(c.table, Locs(H, |c.table|, e), e)
    case Some(loc) => c.(collect := c.collect[loc := false], epoch := c.epoch[loc := true])
    case None => Displace(H, c, e, Invalid, true, c.depthLimit)
  }

  function Contains(H: Hashes, c: Cache, e: Element, erase: bool): (r: (Cache, bool))
    requires Shaped(c)
    ensures Shaped(r.0)
  {
    match Holding(c.table, Locs(H, |c.table|, e), e)
    case Some(loc) => (if erase then c.(collect := c.collect[loc := true]) else c, true)
    case None => (c, false)
  }

  // ---------------------------------------------------------------- where elements are

  /** Every stored element sits at one of its own locations, and no element is stored twice. */
  predicate Placed(H: Hashes, table: seq<Element>)
    requires |table| > 0
  {
    && (forall i :: 0 <= i < |table| && table[i] != Default ==> i in Locs(H, |table|, table[i]))
    && (forall i, j :: 0 <= i < j < |table| && table[i] == table[j] ==> table[i] == Default)
  }

  /** Looking at the eight locations finds exactly the stored elements. */
  lemma ContainsIsMembership(H: Hashes, c: Cache, e: Element, erase: bool)
    requires Shaped(c) && Placed(H, c.table) && e != Default
    ensures Contains(H, c, e, erase).1 <==> e in c.table
    ensures Contains(H, c, e, erase).0.table == c.table
  {
    if e in c.table {
      var i :| 0 <= i < |c.table| && c.table[i] == e;
      assert i in Locs(H, |c.table|, e);
    }
  }

  /** Whether displacement comes to a slot that may be overwritten before the depth runs out. */
  predicate MeetsFree(H: Hashes, c: Cache, e: Element, last: nat, lastEpoch: bool, depth: nat)
    requires Shaped(c)
    decreases depth
  {
    && depth > 0
    && (Free(c.collect, Locs(H, |c.table|, e)).Some? ||
        var loc := Target(H, c, e, last);
        MeetsFree(H, Swapped(c, e, loc, lastEpoch), c.table[loc], loc, c.epoch[loc], depth - 1))
  }

  /** A slot with the given collect flag holds the element. */
  ghost predicate InSlot(c: Cache, x: Element, collectable: bool)
    requires Shaped(c)
  {
    exists i :: 0 <= i < |c.table| && c.collect[i] == collectable && c.table[i] == x
  }

  /** The lost element could be collected, unless the depth ran out; then it is a kept one, or the one in hand. */
  ghost predicate RightlyLost(c: Cache, e: Element, lost: Element, met: bool)
    requires Shaped(c)
  {
    if met then InSlot(c, lost, true) else lost == e || InSlot(c, lost, false)
  }

  lemma LostAfterSwap(c: Cache, e: Element, loc: nat, epoch: bool, lost: Element, met: bool)
    requires Shaped(c) && loc < |c.table| && !c.collect[loc]
    requires RightlyLost(Swapped(c, e, loc, epoch), c.table[loc], lost, met)
    ensures RightlyLost(c, e, lost, met)
  {
    var c' := Swapped(c, e, loc, epoch);
    if met || lost != c.table[loc] {
      var i :| 0 <= i < |c.table| && c'.collect[i] == met && c'.table[i] == lost;
      assert i != loc ==> c.table[i] == lost;
    }
  }

  /** What displacement loses: the content of the slot it ends in, or what is in hand when the depth runs out. */
  function Lost(H: Hashes, c: Cache, e: Element, last: nat, lastEpoch: bool, depth: nat): Element
    requires Shaped(c)
    decreases depth
  {
    if depth == 0 then e else
      var loc := Target(H, c, e, last);
      if Free(c.collect, Locs(H, |c.table|, e)).Some? then c.table[loc]
      else Lost(H, Swapped(c, e, loc, lastEpoch), c.table[loc], loc, c.epoch[loc], depth - 1)
  }

  /** One element in, one out, and every element at a location of its own. */
  ghost predicate Exchanged(H: Hashes, table: seq<Element>, e: Element, after: seq<Element>, lost: Element)
    requires |table| > 0
  {
    && |after| == |table| && Placed(H, after)
    && lost in multiset(table) + multiset{e}
    && multiset(after) == multiset(table) + multiset{e} - multiset{lost}
  }

  lemma ExchangedNext(H: Hashes, table: seq<Element>, e: Element, loc: nat, after: seq<Element>, lost: Element)
    requires |table| > 0 && loc < |table| && Exchanged(H, table[loc := e], table[loc], after, lost)
    requires multiset(table[loc := e]) == multiset(table) + multiset{e} - multiset{table[loc]}
    ensures Exchanged(H, table, e, after, lost)
  {
    hide Placed;
    assert table[loc] in multiset(table);
    Regroup(multiset(table), multiset{e}, table[loc], multiset(table[loc := e]));
  }

  /** Displacement adds the element in hand and loses exactly one. */
  lemma {:induction false} DisplaceKeeps(H: Hashes, c: Cache, e: Element, last: nat, lastEpoch: bool, depth: nat)
    requires Shaped(c) && Placed(H, c.table) && (e != Default ==> e !in c.table)
    ensures Exchanged(H, c.table, e, Displace(H, c, e, last, lastEpoch, depth).table,
                      Lost(H, c, e, last, lastEpoch, depth))
    decreases depth
  {
    hide Placed, Locs, Free, NextLoc, Displace, Target, Lost;
    DisplaceUnfold(H, c, e, last, lastEpoch, depth);
    LostUnfold(H, c, e, last, lastEpoch, depth);
    if depth == 0 {
      assert multiset(c.table) + multiset{e} - multiset{e} == multiset(c.table);
    } else {
      var loc := Target(H, c, e, last);
      StorePlaced(H, c.table, loc, e);
      assert c.table[loc] in multiset(c.table);
      if Free(c.collect, Locs(H, |c.table|, e)).None? {
        hide Exchanged;
        DisplaceKeeps(H, Swapped(c, e, loc, lastEpoch), c.table[loc], loc, c.epoch[loc], depth - 1);
        ExchangedNext(H, c.table, e, loc, Displace(H, c, e, last, lastEpoch, depth).table,
                      Lost(H, c, e, last, lastEpoch, depth));
      }
    }
  }

  /** What it loses could be collected if and only if it came to such a slot. */
  lemma {:induction false} DisplaceLoses(H: Hashes, c: Cache, e: Element, last: nat, lastEpoch: bool, depth: nat)
    requires Shaped(c)
    ensures RightlyLost(c, e, Lost(H, c, e, last, lastEpoch, depth), MeetsFree(H, c, e, last, lastEpoch, depth))
    decreases depth
  {
    hide Locs, Free, NextLoc, Target;
    if depth > 0 {
      var loc := Target(H, c, e, last);
      TargetCollect(H, c, e, last);
      if Free(c.collect, Locs(H, |c.table|, e)).None? {
        hide RightlyLost;
        var c' := Swapped(c, e, loc, lastEpoch);
        var lost, met := Lost(H, c, e, last, lastEpoch, depth), MeetsFree(H, c, e, last, lastEpoch, depth);
        DisplaceLoses(H, c', c.table[loc], loc, c.epoch[loc], depth - 1);
        LostAfterSwap(c, e, loc, lastEpoch, lost, met);
      }
    }
  }

  lemma TargetCollect(H: Hashes, c: Cache, e: Element, last: nat)
    requires Shaped(c)
    ensures c.collect[Target(H, c, e, last)] <==> Free(c.collect, Locs(H, |c.table|, e)).Some?
  {
    hide Locs, NextLoc;
  }

  /** If a slot that may be overwritten is met, the element is stored and all that may not be collected stay. */
  lemma SparesKept(H: Hashes, c: Cache, e: Element, r: Cache, lost: Element)
    requires Shaped(c) && Shaped(r) && Placed(H, c.table) && (e != Default ==> e !in c.table) && InSlot(c, lost, true)
    requires multiset(r.table) == multiset(c.table) + multiset{e} - multiset{lost}
    ensures e in r.table && forall i :: 0 <= i < |c.table| && !c.collect[i] ==> c.table[i] in r.table
  {
    hide Locs;
    assert lost in multiset(c.table);
    assert e in multiset(r.table);
    forall i | 0 <= i < |c.table| && !c.collect[i] ensures c.table[i] in r.table {
      var x := c.table[i];
      assert x in multiset(c.table);
      if x == lost {
        var l :| 0 <= l < |c.table| && c.collect[l] && c.table[l] == lost;
        TwoSlots(c.table, i, l);
      }
      assert x in multiset(r.table);
    }
  }

  lemma TwoSlots(table: seq<Element>, i: nat, j: nat)
    requires i < |table| && j < |table| && i != j && table[i] == table[j]
    ensures multiset(table)[table[i]] >= 2
  {
    var a, b := if i < j then i else j, if i < j then j else i;
    assert table == table[..a] + [table[a]] + table[a + 1..b] + [table[b]] + table[b + 1..];
  }

  /** The slot the element in hand goes to: a free one, or the next to displace from. */
  function Target(H: Hashes, c: Cache, e: Element, last: nat): (loc: nat)
    requires Shaped(c)
    ensures loc < |c.table| && loc in Locs(H, |c.table|, e)
  {
    var locs := Locs(H, |c.table|, e);
    match Free(c.collect, locs)
    case Some(loc) => loc
    case None => NextLoc(locs, last)
  }

  function Swapped(c: Cache, e: Element, loc: nat, epoch: bool): (r: Cache)
    requires Shaped(c) && loc < |c.table|
    ensures Shaped(r)
  {
    c.(table := c.table[loc := e], epoch := c.epoch[loc := epoch])
  }

  lemma DisplaceUnfold(H: Hashes, c: Cache, e: Element, last: nat, lastEpoch: bool, depth: nat)
    requires Shaped(c)
    ensures Displace(H, c, e, last, lastEpoch, depth) ==
      if depth == 0 then c
      else
        var loc := Target(H, c, e, last);
        if Free(c.collect, Locs(H, |c.table|, e)).Some? then Put(c, loc, e, lastEpoch)
        else Displace(H, Swapped(c, e, loc, lastEpoch), c.table[loc], loc, c.epoch[loc], depth - 1)
  {
  }

  lemma LostUnfold(H: Hashes, c: Cache, e: Element, last: nat, lastEpoch: bool, depth: nat)
    requires Shaped(c)
    ensures Lost(H, c, e, last, lastEpoch, depth) ==
      if depth == 0 then e
      else
        var loc := Target(H, c, e, last);
        if Free(c.collect, Locs(H, |c.table|, e)).Some? then c.table[loc]
        else Lost(H, Swapped(c, e, loc, lastEpoch), c.table[loc], loc, c.epoch[loc], depth - 1)
  {
  }

  lemma Regroup(a: multiset<Element>, e: multiset<Element>, x: Element, b: multiset<Element>)
    requires x in a && b == a + e - multiset{x}
    ensures b + multiset{x} == a + e
  {
  }

  lemma StorePlaced(H: Hashes, table: seq<Element>, loc: nat, e: Element)
    requires |table| > 0 && Placed(H, table) && (e != Default ==> e !in table)
    requires loc in Locs(H, |table|, e) && loc < |table|
    ensures Placed(H, table[loc := e])
    ensures table[loc] != Default ==> table[loc] !in table[loc := e]
    ensures multiset(table[loc := e]) == multiset(table) + multiset{e} - multiset{table[loc]}
  {
    hide Locs;
  }

  /** Whether inserting a new element comes to a slot that may be overwritten. */
  predicate FindsRoom(H: Hashes, c: Cache, e: Element)
    requires Shaped(c)
  {
    MeetsFree(H, EpochCheck(c), e, Invalid, true, EpochCheck(c).depthLimit)
  }

  /** One element in and one out. */
  ghost predicate Replaced(H: Hashes, c: Cache, e: Element, r: Cache, lost: Element)
    requires Shaped(c)
  {
    && Exchanged(H, c.table, e, r.table, lost)
    && RightlyLost(EpochCheck(c), e, lost, FindsRoom(H, c, e))
  }

  /**
  Insert keeps the placement; it changes the contents by nothing, or by `e` in and one element out. Unless the
  depth runs out, that one could be collected, and `e` and all that could not be are in the table.
  */
  lemma InsertKeeps(H: Hashes, c: Cache, e: Element)
    requires Shaped(c) && Placed(H, c.table)
    ensures var r := Insert(H, c, e);
      && |r.table| == |c.table| && Placed(H, r.table)
      && (if exists l :: l in Locs(H, |c.table|, e) && c.table[l] == e then r.table == c.table
          else exists lost :: Replaced(H, c, e, r, lost))
    ensures e != Default && e in c.table ==> Insert(H, c, e).table == c.table
    ensures FindsRoom(H, c, e) ==> (e in Insert(H, c, e).table &&
      forall i :: 0 <= i < |c.table| && !EpochCheck(c).collect[i] ==> c.table[i] in Insert(H, c, e).table)
  {
    hide Locs, Displace, EpochCheck, NextLoc, RightlyLost, MeetsFree, Lost, Placed;
    var c1 := EpochCheck(c);
    HeldOnce(H, c, e);
    match Holding(c1.table, Locs(H, |c1.table|, e), e)
    case Some(loc) =>
    case None =>
      var lost := Lost(H, c1, e, Invalid, true, c1.depthLimit);
      DisplaceKeeps(H, c1, e, Invalid, true, c1.depthLimit);
      DisplaceLoses(H, c1, e, Invalid, true, c1.depthLimit);
      assert Replaced(H, c, e, Insert(H, c, e), lost);
      if FindsRoom(H, c, e) {
        hide Exchanged;
        Spared(H, c1, e, Insert(H, c, e), lost);
      }
  }

  lemma HeldOnce(H: Hashes, c: Cache, e: Element)
    requires Shaped(c) && Placed(H, c.table)
    ensures e != Default && e in c.table ==> Holding(c.table, Locs(H, |c.table|, e), e).Some?
  {
    hide Locs;
  }

  lemma Spared(H: Hashes, c: Cache, e: Element, r: Cache, lost: Element)
    requires Shaped(c) && Shaped(r) && Placed(H, c.table) && (e != Default ==> e !in c.table)
    requires RightlyLost(c, e, lost, true) && Exchanged(H, c.table, e, r.table, lost)
    ensures e in r.table && forall i :: 0 <= i < |c.table| && !c.collect[i] ==> c.table[i] in r.table
  {
    SparesKept(H, c, e, r, lost);
  }

  // ---------------------------------------------------------------- epochs stay small

  lemma {:induction false} LivePut(collect: seq<bool>, epoch: seq<bool>, n: nat, loc: nat, x: bool, y: bool)
    requires n <= |collect| == |epoch| && loc < |collect|
    ensures LiveUpTo(collect[loc := x], epoch[loc := y], n) ==
      LiveUpTo(collect, epoch, n) + if loc < n then LiveAt(x, y) - LiveAt(collect[loc], epoch[loc]) else 0
  {
    if n > 0 { LivePut(collect, epoch, n - 1, loc, x, y); }
  }

  lemma {:induction false} NoneLive(collect: seq<bool>, epoch: seq<bool>, n: nat)
    requires n <= |collect| == |epoch| && forall i :: 0 <= i < n ==> !epoch[i]
    ensures LiveUpTo(collect, epoch, n) == 0
  {
    if n > 0 { NoneLive(collect, epoch, n - 1); }
  }

  /** The promised bound on the living epoch. */
  function EpochBound(c: Cache): nat {
    c.epochSize + Max(1, c.epochSize / 16)
  }

  /** The counter leaves room for as many inserts as it allows before the next scan. */
  predicate EpochOk(c: Cache)
    requires Shaped(c)
  {
    Live(c) + c.counter <= EpochBound(c)
  }

  lemma EpochCheckMakesRoom(c: Cache)
    requires Shaped(c) && EpochOk(c)
    ensures var r := EpochCheck(c);
      Live(r) + r.counter + 1 <= EpochBound(r) && EpochBound(r) == EpochBound(c)
  {
    if c.counter == 0 && Live(c) >= c.epochSize {
      NoneLive(Age(c).collect, Age(c).epoch, |c.table|);
    }
  }

  lemma PutLive(c: Cache, loc: nat, x: bool, y: bool)
    requires Shaped(c) && loc < |c.table|
    ensures Live(c.(collect := c.collect[loc := x], epoch := c.epoch[loc := y])) ==
      Live(c) + LiveAt(x, y) - LiveAt(c.collect[loc], c.epoch[loc])
  {
    LivePut(c.collect, c.epoch, |c.table|, loc, x, y);
  }

  /** The epoch flag in hand is the only one displacement can add to the living epoch. */
  lemma {:induction false} DisplaceLive(H: Hashes, c: Cache, e: Element, last: nat, lastEpoch: bool, depth: nat)
    requires Shaped(c)
    ensures var r := Displace(H, c, e, last, lastEpoch, depth);
      && Live(r) <= Live(c) + LiveAt(false, lastEpoch)
      && r.counter == c.counter && r.epochSize == c.epochSize && r.depthLimit == c.depthLimit
    decreases depth
  {
    hide Locs, NextLoc, Displace, LiveUpTo;
    DisplaceUnfold(H, c, e, last, lastEpoch, depth);
    if depth > 0 {
      var loc := Target(H, c, e, last);
      if Free(c.collect, Locs(H, |c.table|, e)).Some? {
        PutLive(c, loc, false, lastEpoch);
      } else {
        assert !c.collect[loc];
        PutLive(c, loc, c.collect[loc], lastEpoch);
        assert c.collect[loc := c.collect[loc]] == c.collect;
        DisplaceLive(H, Swapped(c, e, loc, lastEpoch), c.table[loc], loc, c.epoch[loc], depth - 1);
      }
    }
  }

  lemma InsertEpoch(H: Hashes, c: Cache, e: Element)
    requires Shaped(c) && EpochOk(c)
    ensures EpochOk(Insert(H, c, e)) && EpochBound(Insert(H, c, e)) == EpochBound(c)
  {
    hide Locs, Displace, EpochCheck, LiveUpTo;
    EpochCheckMakesRoom(c);
    var c1 := EpochCheck(c);
    match Holding(c1.table, Locs(H, |c1.table|, e), e)
    case Some(loc) => PutLive(c1, loc, false, true);
    case None => DisplaceLive(H, c1, e, Invalid, true, c1.depthLimit);
  }

  lemma ContainsEpoch(H: Hashes, c: Cache, e: Element, erase: bool)
    requires Shaped(c) && EpochOk(c)
    ensures EpochOk(Contains(H, c, e, erase).0) && EpochBound(Contains(H, c, e, erase).0) == EpochBound(c)
  {
    hide Locs, LiveUpTo;
    match Holding(c.table, Locs(H, |c.table|, e), e)
    case Some(loc) =>
      PutLive(c, loc, true, c.epoch[loc]);
      assert c.epoch[loc := c.epoch[loc]] == c.epoch;
    case None =>
  }

  // ---------------------------------------------------------------- whole runs

  datatype Op = Ins(e: Element) | Look(e: Element, erase: bool)

  function Step(H: Hashes, c: Cache, op: Op): (r: Cache)
    requires Shaped(c)
    ensures Shaped(r)
  {
    match op
    case Ins(e) => Insert(H, c, e)
    case Look(e, erase) => Contains(H, c, e, erase).0
  }

  function Run(H: Hashes, c: Cache, ops: seq<Op>): (r: Cache)
    requires Shaped(c)
    ensures Shaped(r)
    decreases |ops|
  {
    if ops == [] then c else Run(H, Step(H, c, ops[0]), ops[1..])
  }

  lemma {:induction false} RunKeeps(H: Hashes, c: Cache, ops: seq<Op>)
    requires Shaped(c) && Placed(H, c.table) && EpochOk(c)
    ensures var r := Run(H, c, ops);
      |r.table| == |c.table| && Placed(H, r.table) && EpochOk(r) && EpochBound(r) == EpochBound(c)
    decreases |ops|
  {
    hide Placed, EpochOk, Insert, Contains, EpochBound;
    if ops != [] {
      match ops[0] {
        case Ins(e) =>
          InsertKeeps(H, c, e);
          InsertEpoch(H, c, e);
        case Look(e, erase) =>
          ContainsEpoch(H, c, e, erase);
          ContainsLeavesTable(H, c, e, erase);
      }
      RunKeeps(H, Step(H, c, ops[0]), ops[1..]);
    }
  }

  lemma ContainsLeavesTable(H: Hashes, c: Cache, e: Element, erase: bool)
    requires Shaped(c)
    ensures Contains(H, c, e, erase).0.table == c.table
  {
  }

  /**
  After setup, whatever is inserted, looked up and erased: lookups find exactly the stored elements, and
  the living epoch never holds more than epoch_size + max(1, epoch_size / 16) elements.
  */
  lemma AfterSetup(H: Hashes, newSize: uint32, depthLimit: nat, ops: seq<Op>, e: Element)
    requires e != Default
    ensures Shaped(Setup(newSize, depthLimit))
    ensures var c := Run(H, Setup(newSize, depthLimit), ops);
      && Live(c) <= EpochBound(Setup(newSize, depthLimit))
      && (Contains(H, c, e, false).1 <==> e in c.table)
  {
    var c := Setup(newSize, depthLimit);
    assert Placed(H, c.table);
    NoneLive(c.collect, c.epoch, |c.table|);
    RunKeeps(H, c, ops);
    hide Setup, Contains, Placed, LiveUpTo, Run;
    ContainsIsMembership(H, Run(H, c, ops), e, false);
  }
}
